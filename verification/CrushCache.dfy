/** The decoded CRUSH map shared by clones of a cluster map (src/maps/osdmap.rs). */
module CrushCache {
  import opened Wrappers

  /** The bytes and the write-once cell that caches what they decode to, errors included. */
  class CrushState<V, E> {
    const bytes: Bytes
    var decoded: Option<Result<V, E>>

    constructor (bytes: Bytes)
      ensures this.bytes == bytes && decoded == None
    {
      this.bytes := bytes;
      decoded := None;
    }

    ghost predicate Valid(decode: Bytes -> Result<V, E>)
      reads this
    {
      decoded.Some? ==> decoded.value == decode(bytes)
    }

    /** `get_or_init`: the first caller decodes, every later one reads the cell. */
    method Decoded(decode: Bytes -> Result<V, E>) returns (r: Result<V, E>)
      requires Valid(decode)
      modifies this
      ensures Valid(decode) && decoded == Some(r)
      ensures old(decoded.Some?) ==> decoded == old(decoded)
      ensures r == decode(bytes)
    {
      if decoded.None? {
        decoded := Some(decode(bytes));
      }
      r := decoded.value;
    }
  }

  /** What a client does with its map handles. */
  datatype Operation =
    | Load(bytes: Bytes)
    | Clone(handle: nat)
    | Replace(handle: nat, bytes: Bytes)
    | Lookup(handle: nat)

  predicate Applicable(op: Operation, handles: nat) {
    op.Load? || op.handle < handles
  }

  /** The same operations without a cache: a handle is its bytes, and each lookup decodes them anew. */
  function Step(held: seq<Bytes>, op: Operation): (after: seq<Bytes>)
    requires Applicable(op, |held|)
  {
    match op
    case Load(bytes) => held + [bytes]
    case Clone(i) => held + [held[i]]
    case Replace(i, bytes) => held[i := bytes]
    case Lookup(_) => held
  }

  predicate Runnable(ops: seq<Operation>, handles: nat) {
    ops == [] ||
    (Applicable(ops[0], handles) && Runnable(ops[1..], handles + if ops[0].Load? || ops[0].Clone? then 1 else 0))
  }

  function Answers<V, E>(decode: Bytes -> Result<V, E>, held: seq<Bytes>, ops: seq<Operation>)
    : (answers: seq<Result<V, E>>)
    requires Runnable(ops, |held|)
    decreases |ops|
  {
    if ops == [] then []
    else (if ops[0].Lookup? then [decode(held[ops[0].handle])] else []) + Answers(decode, Step(held, ops[0]), ops[1..])
  }

  /** The handles of one process; clones share a cell. */
  class Handles<V, E> {
    const decode: Bytes -> Result<V, E>
    var cells: seq<CrushState<V, E>>

    constructor (decode: Bytes -> Result<V, E>)
      ensures this.decode == decode && Valid() && Held() == []
    {
      this.decode := decode;
      cells := [];
    }

    ghost predicate Valid()
      reads this, cells
    {
      forall i :: 0 <= i < |cells| ==> cells[i].Valid(decode)
    }

    function Held(): (held: seq<Bytes>)
      reads this
      ensures |held| == |cells|
    {
      seq(|cells|, i requires 0 <= i < |cells| reads this => cells[i].bytes)
    }

    method Apply(op: Operation) returns (answer: Option<Result<V, E>>)
      requires Valid() && Applicable(op, |cells|)
      modifies this, cells
      ensures Valid() && Held() == Step(old(Held()), op)
      ensures answer == if op.Lookup? then Some(decode(old(Held())[op.handle])) else None
      ensures forall i :: 0 <= i < |cells| ==> cells[i] in old(cells) || fresh(cells[i])
    {
      answer := None;
      match op
      case Load(bytes) =>
        var cell := new CrushState(bytes);
        cells := cells + [cell];
      case Clone(i) =>
        cells := cells + [cells[i]];
      case Replace(i, bytes) =>
        if cells[i].bytes != bytes {
          var cell := new CrushState(bytes);
          cells := cells[i := cell];
        }
      case Lookup(i) =>
        var r := cells[i].Decoded(decode);
        answer := Some(r);
    }

    /** Whatever the history, every lookup answers as a fresh decode of the handle's bytes would. */
    method Run(ops: seq<Operation>) returns (answers: seq<Result<V, E>>)
      requires Valid() && Runnable(ops, |cells|)
      modifies this, cells
      ensures answers == Answers(decode, old(Held()), ops)
      decreases |ops|
    {
      if ops == [] {
        return [];
      }
      var first := Apply(ops[0]);
      var rest := Run(ops[1..]);
      answers := (if first.Some? then [first.value] else []) + rest;
    }
  }
}
