/**
 * The container of named documents: a document is a chain of blocks, each with a header
 * in hexadecimal text, and a table of contents leads to the documents by name.
 */
module Container {
  import opened Outcomes
  import opened Bits
  import opened Slices

  datatype Damage =
    | ShortContainer
    | DamagedChain
    | BadHeader
    | OverLimit
    | BlockOutside
    | CutChain
    | PartialRecord
    | BadMarker
    | ShortDescription
    | BadName

  const HEADER_LENGTH := 31
  const MAX_BLOCKS := 1_000_000
  const NO_NEXT := 0x7FFF_FFFF
  const TOC_OFFSET := 16
  const TOC_MINIMUM := 0x200

  // ---- numbers in hexadecimal ----

  predicate IsHex(b: Byte) {
    0x30 <= b <= 0x39 || 0x41 <= b <= 0x46 || 0x61 <= b <= 0x66
  }

  function HexDigitValue(b: Byte): (v: nat)
    requires IsHex(b)
    ensures v < 16
  {
    if b <= 0x39 then b - 0x30 else if b <= 0x46 then b - 0x41 + 10 else b - 0x61 + 10
  }

  function HexValue(s: seq<Byte>): nat
    requires forall i :: 0 <= i < |s| ==> IsHex(s[i])
  {
    if s == [] then 0 else HexValue(s[..|s| - 1]) * 16 + HexDigitValue(s[|s| - 1])
  }

  /** A number in hexadecimal, with an optional plus sign. */
  function ParseHex(s: seq<Byte>): (r: Option<nat>)
  {
    ParseHexDigits(if s != [] && s[0] == 0x2B then s[1..] else s)
  }

  function ParseHexDigits(digits: seq<Byte>): (r: Option<nat>)
  {
    if digits != [] && (forall i :: 0 <= i < |digits| ==> IsHex(digits[i])) then Some(HexValue(digits)) else None
  }

  datatype Header = Header(total: nat, block: nat, next: nat)

  /** The three numbers of a block's header; the other characters are not read. */
  function ReadHeader(container: seq<Byte>, o: nat): (r: Option<Header>)
    requires o + HEADER_LENGTH <= |container|
  {
    var total := ParseHex(container[o + 2..o + 10]);
    var block := ParseHex(container[o + 11..o + 19]);
    var next := ParseHex(container[o + 20..o + 28]);
    if total.Some? && block.Some? && next.Some? then Some(Header(total.value, block.value, next.value)) else None
  }

  function Min(a: nat, b: nat): nat {
    if a <= b then a else b
  }

  function Max(a: nat, b: nat): nat {
    if a >= b then a else b
  }

  // ---- the chain of blocks ----

  /** The rest of a document from the block at `o`, after `out` was collected from `visited`. */
  function Chain(
      container: seq<Byte>, o: nat, minimum: nat, limit: nat, size: Option<nat>, out: seq<Byte>, visited: set<nat>)
    : (r: Result<seq<Byte>, Damage>)
    decreases MAX_BLOCKS - |visited|
  {
    if |visited| >= MAX_BLOCKS || o in visited || o + HEADER_LENGTH > |container| then Err(DamagedChain)
    else match ReadHeader(container, o)
         case None => Err(BadHeader)
         case Some(header) =>
           var total := if size.Some? then size.value else header.total;
           var take := Min(Max(header.block, minimum), Max(total, |out|) - |out|);
           var start := o + HEADER_LENGTH;
           if total > limit then Err(OverLimit)
           else if start + take > |container| then Err(BlockOutside)
           else
             var longer := out + container[start..start + take];
             if |longer| >= total then Ok(longer[..total])
             else if header.next == NO_NEXT then Err(CutChain)
             else Chain(container, header.next, minimum, limit, Some(total), longer, visited + {o})
  }

  function Document(container: seq<Byte>, offset: nat, minimum: nat, limit: nat): (r: Result<seq<Byte>, Damage>)
  {
    Chain(container, offset, minimum, limit, None, [], {})
  }

  method ReadDocument(
      container: seq<Byte>, offset: nat, minimum: nat, limit: nat) returns (r: Result<seq<Byte>, Damage>)
    ensures r == Document(container, offset, minimum, limit)
  {
    hide ReadHeader;
    var at: nat := offset;
    var out: seq<Byte> := [];
    var size: Option<nat> := None;
    var blocks := 0;
    var visited: set<nat> := {};
    while true
      invariant blocks == |visited| <= MAX_BLOCKS
      invariant Chain(container, at, minimum, limit, size, out, visited) == Document(container, offset, minimum, limit)
      decreases MAX_BLOCKS - |visited|
    {
      blocks := blocks + 1;
      if blocks > MAX_BLOCKS || at in visited || at + HEADER_LENGTH > |container| {
        return Err(DamagedChain);
      }
      ghost var before := visited;
      visited := visited + {at};
      var header := ReadHeader(container, at);
      if header.None? {
        return Err(BadHeader);
      }
      if size.None? {
        size := Some(header.value.total);
      }
      var total := size.value;
      if total > limit {
        return Err(OverLimit);
      }
      var take := Min(Max(header.value.block, minimum), Max(total, |out|) - |out|);
      var start := at + HEADER_LENGTH;
      if start + take > |container| {
        return Err(BlockOutside);
      }
      out := out + container[start..start + take];
      if |out| >= total {
        return Ok(out[..total]);
      }
      if header.value.next == NO_NEXT {
        return Err(CutChain);
      }
      at := header.value.next;
    }
  }

  // ---- what a document is ----

  predicate Distinct(path: seq<nat>) {
    forall i, j :: 0 <= i < j < |path| ==> path[i] != path[j]
  }

  /** The block at `o` gives this payload when `left` bytes are still missing. */
  predicate Gives(container: seq<Byte>, o: nat, minimum: nat, left: nat, payload: seq<Byte>) {
    && o + 31 <= |container| && ReadHeader(container, o).Some?
    && |payload| == Min(Max(ReadHeader(container, o).value.block, minimum), left)
    && StandsAt(container, o + 31, payload)
  }

  predicate LeadsTo(container: seq<Byte>, o: nat, next: nat) {
    && o + 31 <= |container| && ReadHeader(container, o).Some?
    && ReadHeader(container, o).value.next == next != 0x7FFF_FFFF
  }

  /** The blocks at the places of `path` follow one another and hold `data` between them. */
  predicate Holds(container: seq<Byte>, path: seq<nat>, minimum: nat, data: seq<Byte>)
    decreases |path|
  {
    && path != []
    && if |path| == 1 then Gives(container, path[0], minimum, |data|, data)
       else
         (exists take :: 0 <= take < |data|
            && Gives(container, path[0], minimum, |data|, data[..take]) && LeadsTo(container, path[0], path[1])
            && Holds(container, path[1..], minimum, data[take..]))
  }

  /** A chain of at most a million different blocks, whose first header declares the length of the document. */
  predicate IsDocument(container: seq<Byte>, path: seq<nat>, offset: nat, minimum: nat, limit: nat, data: seq<Byte>) {
    && Holds(container, path, minimum, data) && path[0] == offset && Distinct(path) && |path| <= 1_000_000
    && offset + 31 <= |container| && ReadHeader(container, offset).Some?
    && |data| == ReadHeader(container, offset).value.total <= limit
  }

  /** The length in force: the one of the first header. */
  function Total(container: seq<Byte>, o: nat, size: Option<nat>): (total: nat)
    requires o + HEADER_LENGTH <= |container| && ReadHeader(container, o).Some?
  {
    if size.Some? then size.value else ReadHeader(container, o).value.total
  }

  /** One block read: it gives a payload, and ends the document or leads on. */
  lemma BlockRead(
      container: seq<Byte>, o: nat, minimum: nat, limit: nat, size: Option<nat>, out: seq<Byte>, visited: set<nat>,
      payload: seq<Byte>)
    requires |visited| < MAX_BLOCKS && o !in visited && o + HEADER_LENGTH <= |container|
    requires ReadHeader(container, o).Some?
    requires |out| <= Total(container, o, size) <= limit
    requires Gives(container, o, minimum, Total(container, o, size) - |out|, payload)
    ensures var total, next := Total(container, o, size), ReadHeader(container, o).value.next;
            Chain(container, o, minimum, limit, size, out, visited)
            == if |out| + |payload| == total then Ok(out + payload)
               else if next == NO_NEXT then Err(CutChain)
               else Chain(container, next, minimum, limit, Some(total), out + payload, visited + {o})
  {
    hide ReadHeader;
    var total := Total(container, o, size);
    assert |out| + |payload| == total ==> (out + payload)[..total] == out + payload;
  }

  /** A block that was read without a fault gave a payload. */
  lemma ReadBlockGives(
      container: seq<Byte>, o: nat, minimum: nat, limit: nat, size: Option<nat>, out: seq<Byte>, visited: set<nat>)
    returns (payload: seq<Byte>)
    requires Chain(container, o, minimum, limit, size, out, visited).Ok?
    requires match size case Some(total) => |out| <= total case None => out == []
    ensures |visited| < MAX_BLOCKS && o !in visited && o + HEADER_LENGTH <= |container|
    ensures ReadHeader(container, o).Some?
    ensures |out| <= Total(container, o, size) <= limit
    ensures Gives(container, o, minimum, Total(container, o, size) - |out|, payload)
  {
    hide ReadHeader;
    var take := Min(Max(ReadHeader(container, o).value.block, minimum), Total(container, o, size) - |out|);
    payload := container[o + HEADER_LENGTH..o + HEADER_LENGTH + take];
  }

  /** Following a chain that holds a document collects it. */
  lemma {:induction false} HeldIsRead(
      container: seq<Byte>, path: seq<nat>, minimum: nat, limit: nat, total: nat, size: Option<nat>,
      out: seq<Byte>, data: seq<Byte>, visited: set<nat>)
    requires Holds(container, path, minimum, data) && Distinct(path) && (forall p :: p in path ==> p !in visited)
    requires |visited| + |path| <= MAX_BLOCKS && |out| + |data| == total <= limit
    requires path[0] + HEADER_LENGTH <= |container| && ReadHeader(container, path[0]).Some?
    requires Total(container, path[0], size) == total
    ensures Chain(container, path[0], minimum, limit, size, out, visited) == Ok(out + data)
    decreases |path|
  {
    hide ReadHeader, Chain, StandsAt, Gives, Distinct;
    assert path[0] in path;
    if |path| == 1 {
      BlockRead(container, path[0], minimum, limit, size, out, visited, data);
    } else {
      var rest := path[1..];
      var take :| 0 <= take < |data|
        && Gives(container, path[0], minimum, |data|, data[..take]) && LeadsTo(container, path[0], path[1])
        && Holds(container, rest, minimum, data[take..]);
      BlockRead(container, path[0], minimum, limit, size, out, visited, data[..take]);
      LaterPlaces(path, visited);
      FirstHeader(container, rest, minimum, data[take..]);
      HeldIsRead(container, rest, minimum, limit, total, Some(total), out + data[..take], data[take..],
                 visited + {path[0]});
      assert data[..take] + data[take..] == data;
      assert out + data[..take] + data[take..] == out + data;
    }
  }

  lemma FirstHeader(container: seq<Byte>, path: seq<nat>, minimum: nat, data: seq<Byte>)
    requires Holds(container, path, minimum, data)
    ensures path != [] && path[0] + HEADER_LENGTH <= |container| && ReadHeader(container, path[0]).Some?
  {
  }

  lemma LaterPlaces(path: seq<nat>, visited: set<nat>)
    requires path != [] && Distinct(path) && (forall p :: p in path ==> p !in visited)
    ensures Distinct(path[1..]) && (forall p :: p in path[1..] ==> p !in visited + {path[0]})
    ensures |visited + {path[0]}| == |visited| + 1
  {
    assert path[0] in path;
    forall p | p in path[1..]
      ensures p !in visited + {path[0]}
    {
      var i :| 0 <= i < |path[1..]| && path[1..][i] == p;
      assert p == path[i + 1];
    }
  }

  lemma EarlierPlace(o: nat, rest: seq<nat>, visited: set<nat>)
    requires o !in visited && Distinct(rest) && (forall p :: p in rest ==> p !in visited + {o})
    ensures Distinct([o] + rest) && (forall p :: p in [o] + rest ==> p !in visited)
    ensures |visited + {o}| == |visited| + 1
  {
    forall i, j | 0 <= i < j < |[o] + rest|
      ensures ([o] + rest)[i] != ([o] + rest)[j]
    {
      assert ([o] + rest)[j] == rest[j - 1] && rest[j - 1] in rest;
    }
  }

  /** What a chain collects, it holds. */
  lemma {:induction false} ReadIsHeld(
      container: seq<Byte>, o: nat, minimum: nat, limit: nat, size: Option<nat>, out: seq<Byte>, visited: set<nat>)
    returns (path: seq<nat>, data: seq<Byte>)
    requires Chain(container, o, minimum, limit, size, out, visited).Ok?
    requires match size case Some(total) => |out| <= total case None => out == []
    ensures Holds(container, path, minimum, data) && path[0] == o && Distinct(path)
    ensures |visited| + |path| <= MAX_BLOCKS && (forall p :: p in path ==> p !in visited)
    ensures Chain(container, o, minimum, limit, size, out, visited) == Ok(out + data)
    ensures o + HEADER_LENGTH <= |container| && ReadHeader(container, o).Some?
    ensures |out| + |data| == Total(container, o, size) <= limit
    decreases MAX_BLOCKS - |visited|
  {
    hide ReadHeader, Chain, StandsAt, Gives;
    var payload := ReadBlockGives(container, o, minimum, limit, size, out, visited);
    BlockRead(container, o, minimum, limit, size, out, visited, payload);
    var total, next := Total(container, o, size), ReadHeader(container, o).value.next;
    GivesAtMost(container, o, minimum, total - |out|, payload);
    if |out| + |payload| == total {
      path, data := [o], payload;
    } else {
      assert |visited + {o}| == |visited| + 1;
      var rest, later := ReadIsHeld(container, next, minimum, limit, Some(total), out + payload, visited + {o});
      path, data := [o] + rest, payload + later;
      EarlierPlace(o, rest, visited);
      assert out + payload + later == out + data;
      Prepended(container, o, rest, minimum, payload, later);
    }
  }

  lemma GivesAtMost(container: seq<Byte>, o: nat, minimum: nat, left: nat, payload: seq<Byte>)
    requires Gives(container, o, minimum, left, payload)
    ensures |payload| <= left
  {
    hide StandsAt, ReadHeader;
  }

  lemma Prepended(container: seq<Byte>, o: nat, rest: seq<nat>, minimum: nat, payload: seq<Byte>, later: seq<Byte>)
    requires Gives(container, o, minimum, |payload| + |later|, payload) && later != []
    requires Holds(container, rest, minimum, later) && LeadsTo(container, o, rest[0])
    ensures Holds(container, [o] + rest, minimum, payload + later)
  {
    hide StandsAt, ReadHeader, Gives, LeadsTo;
    var path, data := [o] + rest, payload + later;
    assert path[1..] == rest && data[..|payload|] == payload && data[|payload|..] == later;
  }

  /** Reading gives a document exactly when a chain of blocks holds it. */
  lemma DocumentExactly(container: seq<Byte>, offset: nat, minimum: nat, limit: nat, data: seq<Byte>)
    ensures Document(container, offset, minimum, limit) == Ok(data)
       <==> exists path :: IsDocument(container, path, offset, minimum, limit, data)
  {
    hide Chain, ReadHeader, Holds;
    if Document(container, offset, minimum, limit) == Ok(data) {
      var path, held := ReadIsHeld(container, offset, minimum, limit, None, [], {});
      assert [] + held == held;
      assert IsDocument(container, path, offset, minimum, limit, data);
    }
    if exists path :: IsDocument(container, path, offset, minimum, limit, data) {
      var path :| IsDocument(container, path, offset, minimum, limit, data);
      FirstHeader(container, path, minimum, data);
      HeldIsRead(container, path, minimum, limit, |data|, None, [], data, {});
      assert [] + data == data;
    }
  }
}
