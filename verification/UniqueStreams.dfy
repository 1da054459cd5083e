/** An input begins with at most one stream: its blocks, tokens, runs and padding are all determined. */
module UniqueStreams {
  import opened Outcomes
  import opened Bits
  import opened Slices
  import opened BitReading
  import opened Canonical
  import opened HuffmanTable
  import opened Lz77
  import opened InflateSpec
  import opened Rfc1951
  import opened InflateExact
  import opened InflateTheorem

  // ---- tokens ----

  /** The first symbol of written tokens: that of the first token, or the end of the block. */
  function FirstSymbol(tokens: seq<Token>): (s: nat)
  {
    if tokens == [] then 256
    else match tokens[0] case Literal(byte) => byte case Match(lengthClass, _, _, _) => 257 + lengthClass
  }

  lemma FirstSymbolStands(lit: seq<nat>, dist: seq<nat>, b: seq<bool>, pos: nat, tokens: seq<Token>)
    requires Accepted(lit) && AllEncodable(lit, dist, tokens) && StandsAt(b, pos, EncodeTokens(lit, dist, tokens))
    ensures Coded(lit, FirstSymbol(tokens)) && pos <= |b|
    ensures DecodeSymbol(lit, b, pos) == Ok((FirstSymbol(tokens), pos + lit[FirstSymbol(tokens)]))
  {
    hide DecodeSymbol, Codeword, EncodeToken, Accepted, StandsAt;
    if tokens == [] {
      DecodeWritten(lit, b, pos, 256);
    } else {
      StandsAtConcat(b, pos, EncodeToken(lit, dist, tokens[0]), EncodeTokens(lit, dist, tokens[1..]));
      TokenSymbolStands(lit, dist, b, pos, tokens[0]);
    }
  }

  lemma TokenSymbolStands(lit: seq<nat>, dist: seq<nat>, b: seq<bool>, pos: nat, t: Token)
    requires Accepted(lit) && Encodable(lit, dist, t) && StandsAt(b, pos, EncodeToken(lit, dist, t))
    ensures Coded(lit, FirstSymbol([t])) && pos <= |b|
    ensures DecodeSymbol(lit, b, pos) == Ok((FirstSymbol([t]), pos + lit[FirstSymbol([t])]))
  {
    hide DecodeSymbol, Codeword, MatchTail, Accepted, StandsAt;
    if t.Literal? {
      DecodeWritten(lit, b, pos, t.byte);
    } else {
      EncodedMatch(lit, dist, t);
      StandsAtConcat(b, pos, Codeword(lit, 257 + t.lengthClass), MatchTail(dist, t));
      DecodeWritten(lit, b, pos, 257 + t.lengthClass);
    }
  }

  /** Two matches written at one place, with one length class, are the same. */
  lemma SameTail(dist: seq<nat>, b: seq<bool>, pos: nat, t: Token, u: Token)
    requires Accepted(dist) && t.Match? && u.Match? && ValidToken(t) && ValidToken(u) && t.lengthClass == u.lengthClass
    requires Coded(dist, t.distanceClass) && Coded(dist, u.distanceClass)
    requires StandsAt(b, pos, MatchTail(dist, t)) && StandsAt(b, pos, MatchTail(dist, u))
    ensures t == u
  {
    hide DecodeSymbol, Codeword, DistanceTail, StandsAt, Read, ToBits, Accepted;
    TailStands(dist, b, pos, t);
    TailStands(dist, b, pos, u);
  }

  /** The fields of a match, read one after another. */
  lemma TailStands(dist: seq<nat>, b: seq<bool>, pos: nat, t: Token)
    requires Accepted(dist) && t.Match? && ValidToken(t) && Coded(dist, t.distanceClass)
    requires StandsAt(b, pos, MatchTail(dist, t))
    ensures pos <= |b|
    ensures Read(b, pos, LengthExtra(t.lengthClass)) == Ok((t.lengthBits, pos + LengthExtra(t.lengthClass)))
    ensures var p := pos + LengthExtra(t.lengthClass);
            p <= |b| && DecodeSymbol(dist, b, p) == Ok((t.distanceClass, p + dist[t.distanceClass]))
            && p + dist[t.distanceClass] <= |b|
            && Read(b, p + dist[t.distanceClass], DistanceExtra(t.distanceClass))
            == Ok((t.distanceBits, p + dist[t.distanceClass] + DistanceExtra(t.distanceClass)))
  {
    hide DecodeSymbol, Codeword, StandsAt, Read, ToBits, Accepted;
    var u, v := ToBits(t.lengthBits, LengthExtra(t.lengthClass)), DistanceTail(dist, t);
    StandsAtConcat(b, pos, u, v);
    ReadWritten(b, pos, t.lengthBits, LengthExtra(t.lengthClass));
    var w := Codeword(dist, t.distanceClass);
    StandsAtConcat(b, pos + |u|, w, ToBits(t.distanceBits, DistanceExtra(t.distanceClass)));
    DecodeWritten(dist, b, pos + |u|, t.distanceClass);
    ReadWritten(b, pos + |u| + |w|, t.distanceBits, DistanceExtra(t.distanceClass));
  }

  lemma SameToken(lit: seq<nat>, dist: seq<nat>, b: seq<bool>, pos: nat, t: Token, u: Token)
    requires UsableTrees(lit, dist) && Encodable(lit, dist, t) && Encodable(lit, dist, u)
    requires StandsAt(b, pos, EncodeToken(lit, dist, t)) && StandsAt(b, pos, EncodeToken(lit, dist, u))
    requires FirstSymbol([t]) == FirstSymbol([u])
    ensures t == u
  {
    hide Codeword, MatchTail, StandsAt, Accepted;
    if t.Match? {
      EncodedMatch(lit, dist, t);
      EncodedMatch(lit, dist, u);
      var s := Codeword(lit, 257 + t.lengthClass);
      StandsAtConcat(b, pos, s, MatchTail(dist, t));
      StandsAtConcat(b, pos, s, MatchTail(dist, u));
      assert dist != [0];
      SameTail(dist, b, pos + |s|, t, u);
    }
  }

  lemma {:induction false} SameTokens(
      lit: seq<nat>, dist: seq<nat>, b: seq<bool>, pos: nat, tokens: seq<Token>, others: seq<Token>)
    requires UsableTrees(lit, dist) && AllEncodable(lit, dist, tokens) && AllEncodable(lit, dist, others)
    requires StandsAt(b, pos, EncodeTokens(lit, dist, tokens)) && StandsAt(b, pos, EncodeTokens(lit, dist, others))
    ensures tokens == others
    decreases tokens
  {
    hide EncodeToken, StandsAt, DecodeSymbol, Encodable, Accepted;
    FirstSymbolStands(lit, dist, b, pos, tokens);
    FirstSymbolStands(lit, dist, b, pos, others);
    EmptyBySymbol(lit, dist, tokens);
    EmptyBySymbol(lit, dist, others);
    if tokens != [] {
      var t, u := tokens[0], others[0];
      StandsAtConcat(b, pos, EncodeToken(lit, dist, t), EncodeTokens(lit, dist, tokens[1..]));
      StandsAtConcat(b, pos, EncodeToken(lit, dist, u), EncodeTokens(lit, dist, others[1..]));
      SameToken(lit, dist, b, pos, t, u);
      SameTokens(lit, dist, b, pos + |EncodeToken(lit, dist, t)|, tokens[1..], others[1..]);
      assert tokens == [t] + tokens[1..] && others == [u] + others[1..];
    }
  }

  lemma EmptyBySymbol(lit: seq<nat>, dist: seq<nat>, tokens: seq<Token>)
    requires AllEncodable(lit, dist, tokens)
    ensures tokens == [] <==> FirstSymbol(tokens) == 256
    ensures tokens != [] ==> FirstSymbol(tokens) == FirstSymbol([tokens[0]])
  {
    if tokens != [] {
      assert Encodable(lit, dist, tokens[0]);
    }
  }

  // ---- headers ----

  lemma RunStands(code: seq<nat>, b: seq<bool>, pos: nat, r: Run, rest: seq<Run>)
    requires Accepted(code) && RunsEncodable(code, [r] + rest) && StandsAt(b, pos, EncodeRuns(code, [r] + rest))
    ensures Coded(code, RunSymbol(r)) && pos <= |b|
    ensures DecodeSymbol(code, b, pos) == Ok((RunSymbol(r), pos + code[RunSymbol(r)]))
    ensures StandsAt(b, pos + code[RunSymbol(r)], RunExtra(r))
    ensures RunsEncodable(code, rest) && StandsAt(b, pos + code[RunSymbol(r)] + |RunExtra(r)|, EncodeRuns(code, rest))
  {
    hide DecodeSymbol, Codeword, StandsAt, Accepted, RunExtra;
    var runs := [r] + rest;
    assert runs[0] == r && runs[1..] == rest;
    assert forall i :: 0 <= i < |rest| ==> rest[i] == runs[i + 1];
    StandsAtConcat(b, pos, Codeword(code, RunSymbol(r)) + RunExtra(r), EncodeRuns(code, rest));
    StandsAtConcat(b, pos, Codeword(code, RunSymbol(r)), RunExtra(r));
    DecodeWritten(code, b, pos, RunSymbol(r));
  }

  lemma SameRun(b: seq<bool>, pos: nat, r: Run, q: Run)
    requires ValidRun(r) && ValidRun(q) && RunSymbol(r) == RunSymbol(q)
    requires StandsAt(b, pos, RunExtra(r)) && StandsAt(b, pos, RunExtra(q))
    ensures r == q
  {
    hide Read, ToBits, StandsAt;
    Pow2Values();
    match r
    case OneLength(_) =>
    case RepeatPrevious(bits) =>
      ReadWritten(b, pos, bits, 2);
      ReadWritten(b, pos, q.bits, 2);
    case ShortZeros(bits) =>
      ReadWritten(b, pos, bits, 3);
      ReadWritten(b, pos, q.bits, 3);
    case LongZeros(bits) =>
      ReadWritten(b, pos, bits, 7);
      ReadWritten(b, pos, q.bits, 7);
  }

  lemma {:induction false} SameRuns(
      code: seq<nat>, b: seq<bool>, pos: nat, lengths: seq<nat>, runs: seq<Run>, others: seq<Run>)
    requires Accepted(code) && RunsEncodable(code, runs) && RunsEncodable(code, others)
    requires RunsApply(lengths, runs) && RunsApply(lengths, others)
    requires |ExpandRuns(lengths, runs)| == |ExpandRuns(lengths, others)|
    requires StandsAt(b, pos, EncodeRuns(code, runs)) && StandsAt(b, pos, EncodeRuns(code, others))
    ensures runs == others
    decreases runs
  {
    hide EncodeRuns, StandsAt, DecodeSymbol, Accepted, RunExtra, ApplyRun, RunSymbol;
    if runs != [] && others != [] {
      var r, q := runs[0], others[0];
      assert runs == [r] + runs[1..] && others == [q] + others[1..];
      RunStands(code, b, pos, r, runs[1..]);
      RunStands(code, b, pos, q, others[1..]);
      SameRun(b, pos + code[RunSymbol(r)], r, q);
      SameRuns(code, b, pos + code[RunSymbol(r)] + |RunExtra(r)|, ApplyRun(lengths, r), runs[1..], others[1..]);
    }
  }

  lemma SamePreamble(b: seq<bool>, pos: nat, h: Preamble, g: Preamble)
    requires ValidPreamble(h) && ValidPreamble(g)
    requires StandsAt(b, pos, EncodePreamble(h)) && StandsAt(b, pos, EncodePreamble(g))
    ensures h == g
  {
    hide EncodeCounts, EncodeCodeLengths, EncodeRuns, DynamicHeader, DynamicCounts, Accepted, RunsEncodable, RunsApply;
    hide ExpandRuns, StandsAt, SentAt;
    PreambleStands(b, pos, h);
    PreambleStands(b, pos, g);
    var start := pos + |EncodeCounts(h)| + |EncodeCodeLengths(h.code, 0, h.codes)|;
    SameRuns(h.code, b, start, [], h.runs, g.runs);
  }

  lemma PreambleStands(b: seq<bool>, pos: nat, h: Preamble)
    requires ValidPreamble(h) && StandsAt(b, pos, EncodePreamble(h))
    ensures pos <= |b| && DynamicCounts(b, pos) == Ok(((h.literals, h.distances, h.codes), pos + 14))
    ensures DynamicHeader(b, pos).Ok? && DynamicHeader(b, pos).value.0 == Header(h.literals, h.distances, h.code)
    ensures StandsAt(b, pos + |EncodeCounts(h)| + |EncodeCodeLengths(h.code, 0, h.codes)|, EncodeRuns(h.code, h.runs))
  {
    hide EncodeCounts, EncodeCodeLengths, EncodeRuns, DynamicHeader, DynamicCounts, Accepted, RunsEncodable, RunsApply;
    hide ExpandRuns, StandsAt, SentAt;
    var counts, code := EncodeCounts(h), EncodeCodeLengths(h.code, 0, h.codes);
    StandsAtConcat(b, pos, counts + code, EncodeRuns(h.code, h.runs));
    HeaderWritten(b, pos, h);
    StandsAtConcat(b, pos, counts, code);
    CountsWritten(b, pos, h);
  }

  // ---- blocks ----

  lemma SameStored(
      b: seq<bool>, pos: nat, start: nat, padding: seq<bool>, data: seq<Byte>, other: seq<bool>, more: seq<Byte>)
    requires |b| % 8 == 0 && start == pos + |padding| == pos + |other| && start % 8 == 0
    requires |data| <= 0xFFFF && |more| <= 0xFFFF
    requires StandsAt(b, pos, padding + ToBits(|data|, 16) + ToBits(0xFFFF - |data|, 16) + Stream(data))
    requires StandsAt(b, pos, other + ToBits(|more|, 16) + ToBits(0xFFFF - |more|, 16) + Stream(more))
    ensures padding == other && data == more
  {
    hide *;
    SameCounts(b, pos, start, padding, |data|, Stream(data), other, |more|, Stream(more));
    SameBytes(b, start + 32, data, more);
  }

  lemma SameCounts(
      b: seq<bool>, pos: nat, start: nat, s: seq<bool>, n: nat, w: seq<bool>, t: seq<bool>, m: nat, v: seq<bool>)
    requires |b| % 8 == 0 && start == pos + |s| == pos + |t| && start % 8 == 0 && n <= 0xFFFF && m <= 0xFFFF
    requires StandsAt(b, pos, s + ToBits(n, 16) + ToBits(0xFFFF - n, 16) + w)
    requires StandsAt(b, pos, t + ToBits(m, 16) + ToBits(0xFFFF - m, 16) + v)
    ensures s == t && n == m && StandsAt(b, start + 32, w) && StandsAt(b, start + 32, v)
  {
    hide *;
    StoredStands(b, pos, start, s, n, w);
    StoredStands(b, pos, start, t, m, v);
    SameSlice(b, pos, s, t);
  }

  lemma SameBytes(b: seq<bool>, pos: nat, data: seq<Byte>, more: seq<Byte>)
    requires |data| == |more| && StandsAt(b, pos, Stream(data)) && StandsAt(b, pos, Stream(more))
    ensures data == more
  {
    hide Stream, StandsAt, BytesOf;
    SameSlice(b, pos, Stream(data), Stream(more));
    BytesOfStream(data);
    BytesOfStream(more);
  }

  lemma SameSlice(b: seq<bool>, pos: nat, u: seq<bool>, v: seq<bool>)
    requires StandsAt(b, pos, u) && StandsAt(b, pos, v) && |u| == |v|
    ensures u == v
  {
  }

  lemma StoredStands(b: seq<bool>, pos: nat, start: nat, padding: seq<bool>, n: nat, w: seq<bool>)
    requires |b| % 8 == 0 && start == pos + |padding| && start % 8 == 0 && n <= 0xFFFF
    requires StandsAt(b, pos, padding + ToBits(n, 16) + ToBits(0xFFFF - n, 16) + w)
    ensures StandsAt(b, pos, padding) && start <= |b| && ReadU16(b, start) == Ok((n, start + 16))
    ensures StandsAt(b, start + 32, w)
  {
    hide ToBits, StandsAt, ReadU16;
    FourStand(b, pos, padding, ToBits(n, 16), ToBits(0xFFFF - n, 16), w);
    U16Written(b, start, n);
  }

  lemma FourStand(b: seq<bool>, pos: nat, s: seq<bool>, u: seq<bool>, v: seq<bool>, w: seq<bool>)
    requires StandsAt(b, pos, s + u + v + w)
    ensures StandsAt(b, pos, s) && StandsAt(b, pos + |s|, u) && StandsAt(b, pos + |s| + |u| + |v|, w)
  {
    hide StandsAt;
    StandsAtConcat(b, pos, s + u + v, w);
    StandsAtConcat(b, pos, s + u, v);
    StandsAtConcat(b, pos, s, u);
  }

  lemma SameBody(block: Rfc1951.Block, other: Rfc1951.Block, b: seq<bool>, pos: nat, out: seq<Byte>)
    requires |b| % 8 == 0 && ValidBlock(block, pos, out) && ValidBlock(other, pos, out)
    requires BlockKind(block) == BlockKind(other)
    requires StandsAt(b, pos, EncodeBody(block, pos, out)) && StandsAt(b, pos, EncodeBody(other, pos, out))
    ensures block == other
  {
    hide EncodePreamble, EncodeTokens, AllEncodable, Playable, ValidPreamble, UsableTrees;
    hide FixedLiteralLengths, FixedDistanceLengths, LiteralLengths, DistanceLengths, ToBits, Stream, StandsAt;
    match block
    case StoredBlock(padding, data) => SameStored(b, pos, Aligned(pos), padding, data, other.padding, other.data);
    case FixedBlock(tokens) =>
      FixedTreesUsable();
      SameTokens(FixedLiteralLengths(), FixedDistanceLengths(), b, pos, tokens, other.tokens);
    case DynamicBlock(h, tokens) =>
      var lit, dist := LiteralLengths(h), DistanceLengths(h);
      StandsAtConcat(b, pos, EncodePreamble(h), EncodeTokens(lit, dist, tokens));
      StandsAtConcat(b, pos, EncodePreamble(other.preamble),
                     EncodeTokens(LiteralLengths(other.preamble), DistanceLengths(other.preamble), other.tokens));
      SamePreamble(b, pos, h, other.preamble);
      SameTokens(lit, dist, b, pos + |EncodePreamble(h)|, tokens, other.tokens);
  }

  // ---- streams ----

  lemma StreamStands(b: seq<bool>, pos: nat, out: seq<Byte>, blocks: seq<Rfc1951.Block>)
    requires ValidStream(blocks, pos, out) && StandsAt(b, pos, EncodeStream(blocks, pos, out))
    ensures pos + 3 <= |b| && Read(b, pos, 1) == Ok((if |blocks| == 1 then 1 else 0, pos + 1))
    ensures Read(b, pos + 1, 2) == Ok((BlockKind(blocks[0]), pos + 3))
    ensures StandsAt(b, pos + 3, EncodeBody(blocks[0], pos + 3, out))
    ensures |blocks| > 1 ==>
              StandsAt(b, BlockEnd(blocks[0], pos, out),
                       EncodeStream(blocks[1..], BlockEnd(blocks[0], pos, out), ExpandBlock(blocks[0], pos + 3, out)))
  {
    hide EncodeBody, ExpandBlock, EncodeStream, ValidBlock, BlockHead, Read, BlockKind, StandsAt;
    StreamParts(blocks, pos, out);
    var head, body := BlockHead(blocks[0], |blocks| == 1), EncodeBody(blocks[0], pos + 3, out);
    if |blocks| > 1 {
      StandsAtConcat(b, pos, head + body,
                     EncodeStream(blocks[1..], BlockEnd(blocks[0], pos, out), ExpandBlock(blocks[0], pos + 3, out)));
    }
    StandsAtConcat(b, pos, head, body);
    HeadWritten(b, pos, blocks[0], |blocks| == 1);
  }

  /** Two streams written at one place, after the same output, are the same blocks. */
  lemma {:induction false} SameStream(
      b: seq<bool>, pos: nat, out: seq<Byte>, blocks: seq<Rfc1951.Block>, others: seq<Rfc1951.Block>)
    requires |b| % 8 == 0 && ValidStream(blocks, pos, out) && ValidStream(others, pos, out)
    requires StandsAt(b, pos, EncodeStream(blocks, pos, out)) && StandsAt(b, pos, EncodeStream(others, pos, out))
    ensures blocks == others
    decreases blocks
  {
    hide EncodeBody, ExpandBlock, EncodeStream, ValidBlock, Read, BlockKind, StandsAt, BlockEnd;
    StreamStands(b, pos, out, blocks);
    StreamStands(b, pos, out, others);
    SameBody(blocks[0], others[0], b, pos + 3, out);
    if |blocks| > 1 {
      SameStream(b, BlockEnd(blocks[0], pos, out), ExpandBlock(blocks[0], pos + 3, out), blocks[1..], others[1..]);
      assert blocks == [blocks[0]] + blocks[1..] && others == [others[0]] + others[1..];
    } else {
      assert blocks == [blocks[0]] && others == [others[0]];
    }
  }

  /** An input begins with at most one stream, and so describes at most one output. */
  lemma DescriptionIsUnique(
      input: seq<Byte>, first: seq<Rfc1951.Block>, second: seq<Rfc1951.Block>, out: seq<Byte>, other: seq<Byte>)
    requires Describes(first, input, out) && Describes(second, input, other)
    ensures first == second && out == other
  {
    hide ValidStream, EncodeStream, ExpandStream, Stream;
    SameStream(Stream(input), 0, [], first, second);
  }
}
