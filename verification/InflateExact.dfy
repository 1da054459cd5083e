/**
 * The decoder returns out exactly when the input begins with a stream of the format
 * of Rfc1951 that expands to out and fits the limit: both directions, block by block.
 */
module InflateExact {
  import opened Outcomes
  import opened Bits
  import opened Slices
  import opened BitReading
  import opened Canonical
  import opened HuffmanTable
  import opened Lz77
  import opened InflateSpec
  import opened Rfc1951

  // ---- fields ----

  lemma ReadWritten(b: seq<bool>, pos: nat, v: nat, n: nat)
    requires v < Pow2(n) && StandsAt(b, pos, ToBits(v, n))
    ensures Read(b, pos, n) == Ok((v, pos + n))
  {
    ValueOfToBits(v, n);
  }

  lemma WrittenIsRead(b: seq<bool>, pos: nat, n: nat)
    requires pos <= |b| && Read(b, pos, n).Ok?
    ensures StandsAt(b, pos, ToBits(Read(b, pos, n).value.0, n))
  {
    ToBitsOfValue(b[pos..pos + n]);
  }

  lemma DecodeWritten(lengths: seq<nat>, b: seq<bool>, pos: nat, s: nat)
    requires Accepted(lengths) && Coded(lengths, s) && StandsAt(b, pos, Codeword(lengths, s))
    ensures DecodeSymbol(lengths, b, pos) == Ok((s, pos + lengths[s]))
  {
    assert b[pos..][..lengths[s]] == b[pos..pos + lengths[s]];
    DecodeSymbolExact(lengths, b, pos, s);
  }

  lemma WrittenIsDecoded(lengths: seq<nat>, b: seq<bool>, pos: nat)
    requires pos <= |b| && DecodeSymbol(lengths, b, pos).Ok?
    ensures var (s, p) := DecodeSymbol(lengths, b, pos).value;
            Coded(lengths, s) && StandsAt(b, pos, Codeword(lengths, s)) && p == pos + lengths[s]
  {
    var s := DecodeSymbol(lengths, b, pos).value.0;
    assert b[pos..][..lengths[s]] == b[pos..pos + lengths[s]];
  }

  // ---- tokens ----

  lemma DistanceWritten(dist: seq<nat>, b: seq<bool>, pos: nat, t: Token)
    requires t.Match? && ValidToken(t) && Accepted(dist) && Coded(dist, t.distanceClass)
    requires StandsAt(b, pos, DistanceTail(dist, t))
    ensures DistanceOf(dist, b, pos) == Ok((Distance(t), pos + |DistanceTail(dist, t)|))
  {
    hide DistanceBase, DistanceExtra;
    var s, w := Codeword(dist, t.distanceClass), ToBits(t.distanceBits, DistanceExtra(t.distanceClass));
    StandsAtConcat(b, pos, s, w);
    DecodeWritten(dist, b, pos, t.distanceClass);
    ReadWritten(b, pos + |s|, t.distanceBits, |w|);
  }

  lemma MatchWritten(dist: seq<nat>, b: seq<bool>, pos: nat, t: Token)
    requires t.Match? && ValidToken(t) && Accepted(dist) && Coded(dist, t.distanceClass)
    requires StandsAt(b, pos, MatchTail(dist, t))
    ensures MatchReference(dist, b, pos, t.lengthClass)
         == Ok((Reference(Length(t), Distance(t)), pos + |MatchTail(dist, t)|))
  {
    hide LengthBase, LengthExtra, Distance, DistanceOf, DistanceTail, Value, ToBits;
    var w := ToBits(t.lengthBits, LengthExtra(t.lengthClass));
    StandsAtConcat(b, pos, w, DistanceTail(dist, t));
    ReadWritten(b, pos, t.lengthBits, |w|);
    DistanceWritten(dist, b, pos + |w|, t);
  }

  lemma ReferenceWritten(lit: seq<nat>, dist: seq<nat>, b: seq<bool>, pos: nat, out: seq<Byte>, limit: nat, t: Token)
    requires t.Match? && ValidToken(t) && Accepted(dist) && Coded(dist, t.distanceClass)
    requires StandsAt(b, pos, MatchTail(dist, t)) && InRange(out, t) && |Apply(out, t)| <= limit
    ensures OneMatch(dist, b, pos, t.lengthClass, out, limit) == Ok((Apply(out, t), pos + |MatchTail(dist, t)|))
  {
    hide Length, Distance, MatchReference, MatchTail, CopyBytes;
    MatchWritten(dist, b, pos, t);
  }

  lemma MatchStep(
      lit: seq<nat>, dist: seq<nat>, b: seq<bool>, pos: nat, out: seq<Byte>, limit: nat, lengthClass: nat, p: nat)
    requires lengthClass < LENGTHS && pos <= |b| && p <= |b|
    requires DecodeSymbol(lit, b, pos) == Ok((257 + lengthClass, p))
    requires OneMatch(dist, b, p, lengthClass, out, limit).Ok?
    ensures var (more, q) := OneMatch(dist, b, p, lengthClass, out, limit).value;
            OneSymbol(lit, dist, b, pos, out, limit) == Ok(Progress(more, q, false))
  {
    hide DecodeSymbol, OneMatch;
  }

  lemma EncodedMatch(lit: seq<nat>, dist: seq<nat>, t: Token)
    requires t.Match? && Encodable(lit, dist, t)
    ensures EncodeToken(lit, dist, t) == Codeword(lit, 257 + t.lengthClass) + MatchTail(dist, t)
    ensures |EncodeToken(lit, dist, t)| == |Codeword(lit, 257 + t.lengthClass)| + |MatchTail(dist, t)|
  {
    hide Codeword, MatchTail;
  }

  lemma MatchTokenWritten(lit: seq<nat>, dist: seq<nat>, b: seq<bool>, pos: nat, out: seq<Byte>, limit: nat, t: Token)
    requires Accepted(lit) && Accepted(dist) && t.Match? && Encodable(lit, dist, t) && InRange(out, t)
    requires StandsAt(b, pos, EncodeToken(lit, dist, t)) && |Apply(out, t)| <= limit
    ensures OneSymbol(lit, dist, b, pos, out, limit)
         == Ok(Progress(Apply(out, t), pos + |EncodeToken(lit, dist, t)|, false))
  {
    hide OneSymbol, OneMatch, DecodeSymbol, Apply, Codeword, MatchTail, EncodeToken;
    EncodedMatch(lit, dist, t);
    var s := Codeword(lit, 257 + t.lengthClass);
    StandsAtConcat(b, pos, s, MatchTail(dist, t));
    DecodeWritten(lit, b, pos, 257 + t.lengthClass);
    ReferenceWritten(lit, dist, b, pos + |s|, out, limit, t);
    MatchStep(lit, dist, b, pos, out, limit, t.lengthClass, pos + |s|);
  }

  lemma LiteralWritten(lit: seq<nat>, dist: seq<nat>, b: seq<bool>, pos: nat, out: seq<Byte>, limit: nat, t: Token)
    requires Accepted(lit) && t.Literal? && Encodable(lit, dist, t)
    requires StandsAt(b, pos, EncodeToken(lit, dist, t)) && |Apply(out, t)| <= limit
    ensures OneSymbol(lit, dist, b, pos, out, limit)
         == Ok(Progress(Apply(out, t), pos + |EncodeToken(lit, dist, t)|, false))
  {
    hide DecodeSymbol, OneMatch, Codeword, MatchTail, CopyBytes, Length, Distance;
    DecodeWritten(lit, b, pos, t.byte);
  }

  /** A written token decodes to its effect on the output. */
  lemma TokenWritten(lit: seq<nat>, dist: seq<nat>, b: seq<bool>, pos: nat, out: seq<Byte>, limit: nat, t: Token)
    requires UsableTrees(lit, dist) && Encodable(lit, dist, t) && InRange(out, t)
    requires StandsAt(b, pos, EncodeToken(lit, dist, t)) && |Apply(out, t)| <= limit
    ensures OneSymbol(lit, dist, b, pos, out, limit)
         == Ok(Progress(Apply(out, t), pos + |EncodeToken(lit, dist, t)|, false))
  {
    hide OneSymbol, Apply, EncodeToken, Accepted, ValidToken, StandsAt;
    if t.Literal? {
      LiteralWritten(lit, dist, b, pos, out, limit, t);
    } else {
      assert dist != [0];
      MatchTokenWritten(lit, dist, b, pos, out, limit, t);
    }
  }

  lemma WrittenIsDistance(dist: seq<nat>, b: seq<bool>, pos: nat, lengthClass: nat, lengthBits: nat) returns (t: Token)
    requires pos <= |b| && DistanceOf(dist, b, pos).Ok?
    requires lengthClass < LENGTHS && lengthBits < Pow2(LengthExtra(lengthClass))
    ensures t.Match? && t.lengthClass == lengthClass && t.lengthBits == lengthBits
    ensures ValidToken(t) && Coded(dist, t.distanceClass) && StandsAt(b, pos, DistanceTail(dist, t))
    ensures DistanceOf(dist, b, pos).value == (Distance(t), pos + |DistanceTail(dist, t)|)
  {
    hide DistanceBase, DistanceExtra, LengthExtra;
    WrittenIsDecoded(dist, b, pos);
    var (symbol, p) := DecodeSymbol(dist, b, pos).value;
    var n := DistanceExtra(symbol);
    WrittenIsRead(b, p, n);
    t := Match(lengthClass, lengthBits, symbol, Read(b, p, n).value.0);
    StandsAtConcat(b, pos, Codeword(dist, symbol), ToBits(t.distanceBits, n));
  }

  lemma WrittenIsMatch(dist: seq<nat>, b: seq<bool>, pos: nat, lengthClass: nat) returns (t: Token)
    requires pos <= |b| && lengthClass < LENGTHS && MatchReference(dist, b, pos, lengthClass).Ok?
    ensures t.Match? && t.lengthClass == lengthClass
    ensures ValidToken(t) && Coded(dist, t.distanceClass) && StandsAt(b, pos, MatchTail(dist, t))
    ensures MatchReference(dist, b, pos, lengthClass).value
         == (Reference(Length(t), Distance(t)), pos + |MatchTail(dist, t)|)
  {
    hide LengthBase, LengthExtra, Distance, DistanceOf, DistanceTail, Value, ToBits;
    var n := LengthExtra(lengthClass);
    var (lengthBits, p) := Read(b, pos, n).value;
    WrittenIsRead(b, pos, n);
    t := WrittenIsDistance(dist, b, p, lengthClass, lengthBits);
    StandsAtConcat(b, pos, ToBits(lengthBits, n), DistanceTail(dist, t));
  }

  lemma WrittenIsReference(
      dist: seq<nat>, b: seq<bool>, pos: nat, lengthClass: nat, out: seq<Byte>, limit: nat) returns (t: Token)
    requires pos <= |b| && lengthClass < LENGTHS && OneMatch(dist, b, pos, lengthClass, out, limit).Ok?
    requires |out| <= limit
    ensures t.Match? && t.lengthClass == lengthClass
    ensures ValidToken(t) && Coded(dist, t.distanceClass) && StandsAt(b, pos, MatchTail(dist, t))
    ensures InRange(out, t) && |Apply(out, t)| <= limit
    ensures OneMatch(dist, b, pos, lengthClass, out, limit).value == (Apply(out, t), pos + |MatchTail(dist, t)|)
  {
    hide Length, Distance, MatchReference, MatchTail, CopyBytes;
    t := WrittenIsMatch(dist, b, pos, lengthClass);
  }

  /** What a decoded symbol, read up to p, does to the output. */
  ghost predicate SymbolGives(dist: seq<nat>, b: seq<bool>, p: nat, s: nat, out: seq<Byte>, limit: nat, next: Progress)
    requires p <= |b|
  {
    && s <= 285 && (next.finished <==> s == 256)
    && (s <= 255 ==> next == Progress(out + [s], p, false) && |out| < limit)
    && (s == 256 ==> next == Progress(out, p, true))
    && (s > 256 ==>
          match OneMatch(dist, b, p, s - 257, out, limit)
          case Ok((longer, q)) => next == Progress(longer, q, false)
          case Err(_) => false)
  }

  lemma SymbolCases(lit: seq<nat>, dist: seq<nat>, b: seq<bool>, pos: nat, out: seq<Byte>, limit: nat)
    requires pos <= |b| && OneSymbol(lit, dist, b, pos, out, limit).Ok?
    ensures DecodeSymbol(lit, b, pos).Ok?
    ensures SymbolGives(dist, b, DecodeSymbol(lit, b, pos).value.1, DecodeSymbol(lit, b, pos).value.0, out, limit,
                        OneSymbol(lit, dist, b, pos, out, limit).value)
  {
    hide DecodeSymbol, OneMatch;
  }

  /** A decoded symbol that does not end the block is a written token. */
  lemma WrittenIsToken(
      lit: seq<nat>, dist: seq<nat>, b: seq<bool>, pos: nat, out: seq<Byte>, limit: nat) returns (t: Token)
    requires pos <= |b| && OneSymbol(lit, dist, b, pos, out, limit).Ok? && |out| <= limit
    requires !OneSymbol(lit, dist, b, pos, out, limit).value.finished
    ensures Encodable(lit, dist, t) && InRange(out, t) && StandsAt(b, pos, EncodeToken(lit, dist, t))
    ensures |Apply(out, t)| <= limit
    ensures OneSymbol(lit, dist, b, pos, out, limit).value
         == Progress(Apply(out, t), pos + |EncodeToken(lit, dist, t)|, false)
  {
    hide OneSymbol, OneMatch, DecodeSymbol, Codeword, MatchTail, CopyBytes;
    SymbolCases(lit, dist, b, pos, out, limit);
    WrittenIsDecoded(lit, b, pos);
    var (symbol, p) := DecodeSymbol(lit, b, pos).value;
    if symbol <= 255 {
      t := Literal(symbol);
    } else {
      t := WrittenIsReference(dist, b, p, symbol - 257, out, limit);
      StandsAtConcat(b, pos, Codeword(lit, symbol), MatchTail(dist, t));
    }
  }

  lemma EndWritten(lit: seq<nat>, dist: seq<nat>, b: seq<bool>, pos: nat, out: seq<Byte>, limit: nat)
    requires Accepted(lit) && Coded(lit, 256) && StandsAt(b, pos, Codeword(lit, 256))
    ensures OneSymbol(lit, dist, b, pos, out, limit) == Ok(Progress(out, pos + |Codeword(lit, 256)|, true))
  {
    hide DecodeSymbol, OneMatch, Codeword;
    DecodeWritten(lit, b, pos, 256);
  }

  lemma WrittenIsEnd(lit: seq<nat>, dist: seq<nat>, b: seq<bool>, pos: nat, out: seq<Byte>, limit: nat)
    requires pos <= |b| && OneSymbol(lit, dist, b, pos, out, limit).Ok?
    requires OneSymbol(lit, dist, b, pos, out, limit).value.finished
    ensures Coded(lit, 256) && StandsAt(b, pos, Codeword(lit, 256))
    ensures OneSymbol(lit, dist, b, pos, out, limit).value == Progress(out, pos + |Codeword(lit, 256)|, true)
  {
    hide DecodeSymbol, OneMatch, OneSymbol, Codeword;
    SymbolCases(lit, dist, b, pos, out, limit);
    WrittenIsDecoded(lit, b, pos);
  }

  /** A written token list decodes to its expansion. */
  lemma {:induction false} TokensWritten(
      lit: seq<nat>, dist: seq<nat>, b: seq<bool>, pos: nat, out: seq<Byte>, limit: nat, tokens: seq<Token>)
    requires UsableTrees(lit, dist) && AllEncodable(lit, dist, tokens) && Playable(out, tokens)
    requires StandsAt(b, pos, EncodeTokens(lit, dist, tokens)) && |Expand(out, tokens)| <= limit
    ensures Symbols(lit, dist, b, pos, out, limit)
         == Ok((Expand(out, tokens), pos + |EncodeTokens(lit, dist, tokens)|))
    decreases tokens
  {
    hide EncodeToken, Apply, OneSymbol;
    if tokens == [] {
      EndWritten(lit, dist, b, pos, out, limit);
    } else {
      var w := EncodeToken(lit, dist, tokens[0]);
      StandsAtConcat(b, pos, w, EncodeTokens(lit, dist, tokens[1..]));
      TokenWritten(lit, dist, b, pos, out, limit, tokens[0]);
      TokensWritten(lit, dist, b, pos + |w|, Apply(out, tokens[0]), limit, tokens[1..]);
    }
  }

  lemma {:induction false} WrittenIsTokens(
      lit: seq<nat>, dist: seq<nat>, b: seq<bool>, pos: nat, out: seq<Byte>, limit: nat)
    returns (tokens: seq<Token>)
    requires pos <= |b| && |out| <= limit && Symbols(lit, dist, b, pos, out, limit).Ok?
    ensures AllEncodable(lit, dist, tokens) && Playable(out, tokens) && |Expand(out, tokens)| <= limit
    ensures StandsAt(b, pos, EncodeTokens(lit, dist, tokens))
    ensures Symbols(lit, dist, b, pos, out, limit).value
         == (Expand(out, tokens), pos + |EncodeTokens(lit, dist, tokens)|)
    decreases |b| - pos
  {
    hide EncodeToken, Apply, OneSymbol;
    var next := OneSymbol(lit, dist, b, pos, out, limit).value;
    if next.finished {
      WrittenIsEnd(lit, dist, b, pos, out, limit);
      tokens := [];
    } else {
      var t := WrittenIsToken(lit, dist, b, pos, out, limit);
      var rest := WrittenIsTokens(lit, dist, b, next.pos, next.out, limit);
      tokens := [t] + rest;
      assert tokens[1..] == rest;
      StandsAtConcat(b, pos, EncodeToken(lit, dist, t), EncodeTokens(lit, dist, rest));
    }
  }

  /** The trees the decoder builds are the usable ones. */
  lemma TreesExact(lit: seq<nat>, dist: seq<nat>, pos: nat)
    ensures BuildOutcome(lit, pos, false).Ok? && BuildOutcome(dist, pos, |dist| == 1).Ok? <==> UsableTrees(lit, dist)
  {
    if |dist| == 1 && AllAbsent(dist) {
      assert dist == [dist[0]];
    }
  }

  // ---- the header of a dynamic block ----

  lemma RunWritten(b: seq<bool>, pos: nat, lengths: seq<nat>, total: nat, r: Run)
    requires ValidRun(r) && (r.RepeatPrevious? ==> lengths != [])
    requires StandsAt(b, pos, RunExtra(r)) && |ApplyRun(lengths, r)| <= total
    ensures AppendDynamic(RunSymbol(r), b, pos, lengths, total) == Ok((ApplyRun(lengths, r), pos + |RunExtra(r)|))
  {
    hide Read, ToBits, StandsAt;
    Pow2Values();
    match r
    case OneLength(_) =>
    case RepeatPrevious(bits) => ReadWritten(b, pos, bits, 2);
    case ShortZeros(bits) => ReadWritten(b, pos, bits, 3);
    case LongZeros(bits) => ReadWritten(b, pos, bits, 7);
  }

  lemma WrittenIsRun(b: seq<bool>, pos: nat, lengths: seq<nat>, total: nat, symbol: nat) returns (r: Run)
    requires pos <= |b| && AppendDynamic(symbol, b, pos, lengths, total).Ok?
    ensures ValidRun(r) && RunSymbol(r) == symbol && (r.RepeatPrevious? ==> lengths != [])
    ensures StandsAt(b, pos, RunExtra(r))
    ensures AppendDynamic(symbol, b, pos, lengths, total).value == (ApplyRun(lengths, r), pos + |RunExtra(r)|)
  {
    Pow2Values();
    if symbol <= 15 {
      r := OneLength(symbol);
    } else if symbol == 16 {
      WrittenIsRead(b, pos, 2);
      r := RepeatPrevious(Read(b, pos, 2).value.0);
    } else if symbol == 17 {
      WrittenIsRead(b, pos, 3);
      r := ShortZeros(Read(b, pos, 3).value.0);
    } else {
      WrittenIsRead(b, pos, 7);
      r := LongZeros(Read(b, pos, 7).value.0);
    }
  }

  /** Written runs decode to their expansion, which is exactly the declared total. */
  lemma {:induction false} RunsWritten(
      code: seq<nat>, b: seq<bool>, pos: nat, lengths: seq<nat>, total: nat, runs: seq<Run>)
    requires Accepted(code) && RunsEncodable(code, runs) && RunsApply(lengths, runs)
    requires |ExpandRuns(lengths, runs)| == total && StandsAt(b, pos, EncodeRuns(code, runs))
    ensures LengthRuns(code, b, pos, lengths, total) == Ok((ExpandRuns(lengths, runs), pos + |EncodeRuns(code, runs)|))
    decreases runs
  {
    hide Accepted, AppendDynamic, ApplyRun, RunExtra, ValidRun, DecodeSymbol, Codeword, Coded;
    if runs != [] {
      var s, x := Codeword(code, RunSymbol(runs[0])), RunExtra(runs[0]);
      StandsAtConcat(b, pos, s + x, EncodeRuns(code, runs[1..]));
      StandsAtConcat(b, pos, s, x);
      DecodeWritten(code, b, pos, RunSymbol(runs[0]));
      RunWritten(b, pos + |s|, lengths, total, runs[0]);
      RunsWritten(code, b, pos + |s| + |x|, ApplyRun(lengths, runs[0]), total, runs[1..]);
    }
  }

  lemma {:induction false} WrittenIsRuns(
      code: seq<nat>, b: seq<bool>, pos: nat, lengths: seq<nat>, total: nat) returns (runs: seq<Run>)
    requires pos <= |b| && |lengths| <= total && LengthRuns(code, b, pos, lengths, total).Ok?
    ensures RunsEncodable(code, runs) && RunsApply(lengths, runs) && |ExpandRuns(lengths, runs)| == total
    ensures StandsAt(b, pos, EncodeRuns(code, runs))
    ensures LengthRuns(code, b, pos, lengths, total).value
         == (ExpandRuns(lengths, runs), pos + |EncodeRuns(code, runs)|)
    decreases |b| - pos
  {
    hide AppendDynamic, ApplyRun, RunExtra, ValidRun, DecodeSymbol, Codeword, Coded;
    if |lengths| == total {
      runs := [];
    } else {
      WrittenIsDecoded(code, b, pos);
      var (symbol, p) := DecodeSymbol(code, b, pos).value;
      var r := WrittenIsRun(b, p, lengths, total, symbol);
      var (more, q) := AppendDynamic(symbol, b, p, lengths, total).value;
      var rest := WrittenIsRuns(code, b, q, more, total);
      runs := [r] + rest;
      assert runs[1..] == rest;
      StandsAtConcat(b, pos, Codeword(code, symbol), RunExtra(r));
      StandsAtConcat(b, pos, Codeword(code, symbol) + RunExtra(r), EncodeRuns(code, rest));
    }
  }

  /** Where each code-length symbol stands in the transmission order. */
  const POSITION: seq<nat> := [3, 17, 15, 13, 11, 9, 7, 5, 4, 6, 8, 10, 12, 14, 16, 18, 0, 1, 2]

  function PositionOf(symbol: nat): (index: nat)
    requires symbol < 19
    ensures index < 19
  {
    POSITION[symbol]
  }

  lemma OrderIsPermutation()
    ensures forall i: nat :: i < 19 ==> PositionOf(SentAt(i)) == i
    ensures forall j: nat :: j < 19 ==> SentAt(PositionOf(j)) == j
  {
  }

  /** A code with only the lengths sent before an index filled in. */
  function Sent(code: seq<nat>, index: nat): (r: seq<nat>)
    requires |code| == 19
    ensures |r| == 19
  {
    seq(19, j requires 0 <= j < 19 => if PositionOf(j) < index then code[j] else 0)
  }

  lemma {:induction false} CodeLengthsWritten(code: seq<nat>, b: seq<bool>, pos: nat, index: nat, codes: nat)
    requires |code| == 19 && index <= codes <= 19 && (forall i :: 0 <= i < 19 ==> code[i] < 8)
    requires StandsAt(b, pos, EncodeCodeLengths(code, index, codes))
    ensures CodeLengths(b, pos, index, codes, Sent(code, index))
         == Ok((Sent(code, codes), pos + |EncodeCodeLengths(code, index, codes)|))
    decreases codes - index
  {
    hide Sent, SentAt, ToBits, Value, Read, Pow2;
    if index < codes {
      var v := code[SentAt(index)];
      StandsAtConcat(b, pos, ToBits(v, 3), EncodeCodeLengths(code, index + 1, codes));
      Pow2Values();
      ReadWritten(b, pos, v, 3);
      SentStep(code, index);
      CodeLengthsWritten(code, b, pos + 3, index + 1, codes);
    }
  }

  lemma SentStep(code: seq<nat>, index: nat)
    requires |code| == 19 && index < 19
    ensures Sent(code, index)[SentAt(index) := code[SentAt(index)]] == Sent(code, index + 1)
  {
    hide SentAt, PositionOf;
    OrderIsPermutation();
    var l, r := Sent(code, index)[SentAt(index) := code[SentAt(index)]], Sent(code, index + 1);
    forall j: nat | j < 19 ensures l[j] == r[j] {
      if PositionOf(j) == index {
        assert j == SentAt(index);
      } else {
        assert j != SentAt(index);
      }
    }
  }

  /** The lengths read are the ones written, and the ones not sent keep their value. */
  lemma {:induction false} WrittenIsCodeLengths(b: seq<bool>, pos: nat, index: nat, codes: nat, start: seq<nat>)
    requires pos <= |b| && index <= codes <= 19 && |start| == 19
    requires CodeLengths(b, pos, index, codes, start).Ok?
    ensures var (code, end) := CodeLengths(b, pos, index, codes, start).value;
            && StandsAt(b, pos, EncodeCodeLengths(code, index, codes))
            && end == pos + |EncodeCodeLengths(code, index, codes)|
            && forall j: nat :: j < 19 ==> if index <= PositionOf(j) < codes then code[j] < 8 else code[j] == start[j]
    decreases codes - index
  {
    hide SentAt, PositionOf, ToBits, Value, Read, Pow2;
    if index < codes {
      OrderIsPermutation();
      Pow2Values();
      WrittenIsRead(b, pos, 3);
      var (v, p) := Read(b, pos, 3).value;
      WrittenIsCodeLengths(b, p, index + 1, codes, start[SentAt(index) := v]);
      var code := CodeLengths(b, pos, index, codes, start).value.0;
      assert code[SentAt(index)] == v;
      StandsAtConcat(b, pos, ToBits(v, 3), EncodeCodeLengths(code, index + 1, codes));
    }
  }

  lemma AllSent(code: seq<nat>, codes: nat)
    requires |code| == 19 && codes <= 19 && forall i :: codes <= i < 19 ==> code[SentAt(i)] == 0
    ensures Sent(code, codes) == code && Sent(code, 0) == Repeat<nat>(0, 19)
  {
    hide SentAt, PositionOf;
    OrderIsPermutation();
    forall j: nat | j < 19 ensures Sent(code, codes)[j] == code[j] {
      if PositionOf(j) >= codes {
        assert code[SentAt(PositionOf(j))] == 0;
      }
    }
  }

  lemma CountsWritten(b: seq<bool>, pos: nat, h: Preamble)
    requires 257 <= h.literals <= 288 && 1 <= h.distances <= 32 && 4 <= h.codes <= 19
    requires StandsAt(b, pos, EncodeCounts(h))
    ensures DynamicCounts(b, pos) == Ok(((h.literals, h.distances, h.codes), pos + 14))
  {
    hide ToBits, Value, Read;
    var u, v, w := ToBits(h.literals - 257, 5), ToBits(h.distances - 1, 5), ToBits(h.codes - 4, 4);
    StandsAtConcat(b, pos, u + v, w);
    StandsAtConcat(b, pos, u, v);
    Pow2Values();
    ReadWritten(b, pos, h.literals - 257, 5);
    ReadWritten(b, pos + 5, h.distances - 1, 5);
    ReadWritten(b, pos + 10, h.codes - 4, 4);
  }

  lemma WrittenIsCounts(b: seq<bool>, pos: nat, h: Preamble)
    requires pos <= |b| && DynamicCounts(b, pos).Ok?
    requires (h.literals, h.distances, h.codes) == DynamicCounts(b, pos).value.0
    ensures 257 <= h.literals <= 288 && 1 <= h.distances <= 32 && 4 <= h.codes <= 19
    ensures StandsAt(b, pos, EncodeCounts(h)) && DynamicCounts(b, pos).value.1 == pos + 14
  {
    hide ToBits, Value;
    WrittenIsRead(b, pos, 5);
    WrittenIsRead(b, pos + 5, 5);
    WrittenIsRead(b, pos + 10, 4);
    var u, v, w := ToBits(h.literals - 257, 5), ToBits(h.distances - 1, 5), ToBits(h.codes - 4, 4);
    StandsAtConcat(b, pos, u, v);
    StandsAtConcat(b, pos, u + v, w);
  }

  lemma HeaderWritten(b: seq<bool>, pos: nat, h: Preamble)
    requires ValidPreamble(h) && StandsAt(b, pos, EncodeCounts(h) + EncodeCodeLengths(h.code, 0, h.codes))
    ensures DynamicHeader(b, pos)
         == Ok((Header(h.literals, h.distances, h.code), pos + 14 + |EncodeCodeLengths(h.code, 0, h.codes)|))
  {
    hide EncodeCounts, EncodeCodeLengths, DynamicCounts, CodeLengths, Sent;
    StandsAtConcat(b, pos, EncodeCounts(h), EncodeCodeLengths(h.code, 0, h.codes));
    CountsWritten(b, pos, h);
    AllSent(h.code, h.codes);
    CodeLengthsWritten(h.code, b, pos + 14, 0, h.codes);
  }

  /** A written preamble decodes to the lengths it stands for. */
  lemma PreambleWritten(b: seq<bool>, pos: nat, h: Preamble)
    requires ValidPreamble(h) && StandsAt(b, pos, EncodePreamble(h))
    ensures DynamicLengths(b, pos) == Ok(((LiteralLengths(h), DistanceLengths(h)), pos + |EncodePreamble(h)|))
  {
    hide EncodeCounts, EncodeCodeLengths, EncodeRuns, DynamicHeader, LengthRuns, Accepted, RunsEncodable, RunsApply;
    hide ExpandRuns;
    var front := EncodeCounts(h) + EncodeCodeLengths(h.code, 0, h.codes);
    StandsAtConcat(b, pos, front, EncodeRuns(h.code, h.runs));
    HeaderWritten(b, pos, h);
    RunsWritten(h.code, b, pos + |front|, [], h.literals + h.distances, h.runs);
  }

  lemma WrittenIsHeader(b: seq<bool>, pos: nat) returns (h: Preamble)
    requires pos <= |b| && DynamicHeader(b, pos).Ok?
    ensures var (header, end) := DynamicHeader(b, pos).value;
            && header == Header(h.literals, h.distances, h.code) && h.runs == []
            && 257 <= h.literals <= 288 && 1 <= h.distances <= 32 && 4 <= h.codes <= 19 && |h.code| == 19
            && (forall i :: 0 <= i < 19 ==> h.code[i] < 8)
            && (forall i :: h.codes <= i < 19 ==> h.code[SentAt(i)] == 0)
            && StandsAt(b, pos, EncodeCounts(h) + EncodeCodeLengths(h.code, 0, h.codes))
            && end == pos + |EncodeCounts(h) + EncodeCodeLengths(h.code, 0, h.codes)|
  {
    hide EncodeCounts, EncodeCodeLengths, DynamicCounts, CodeLengths, SentAt, PositionOf;
    var (counts, p) := DynamicCounts(b, pos).value;
    var (code, end) := CodeLengths(b, p, 0, counts.2, Repeat<nat>(0, 19)).value;
    h := Preamble(counts.0, counts.1, counts.2, code, []);
    WrittenIsCounts(b, pos, h);
    WrittenIsCodeLengths(b, p, 0, counts.2, Repeat<nat>(0, 19));
    OrderIsPermutation();
    StandsAtConcat(b, pos, EncodeCounts(h), EncodeCodeLengths(code, 0, counts.2));
  }

  /** A decoded dynamic header is a written preamble. */
  lemma WrittenIsPreamble(b: seq<bool>, pos: nat) returns (h: Preamble)
    requires pos <= |b| && DynamicLengths(b, pos).Ok?
    ensures ValidPreamble(h) && StandsAt(b, pos, EncodePreamble(h))
    ensures DynamicLengths(b, pos).value == ((LiteralLengths(h), DistanceLengths(h)), pos + |EncodePreamble(h)|)
  {
    hide EncodeCounts, EncodeCodeLengths, EncodeRuns, DynamicHeader, LengthRuns, Accepted, RunsEncodable, RunsApply;
    hide ExpandRuns;
    var (header, p) := DynamicHeader(b, pos).value;
    var front := WrittenIsHeader(b, pos);
    var runs := WrittenIsRuns(header.code, b, p, [], header.literals + header.distances);
    h := front.(runs := runs);
    SameCounts(h, front);
    StandsAtConcat(b, pos, EncodeCounts(h) + EncodeCodeLengths(h.code, 0, h.codes), EncodeRuns(h.code, runs));
  }

  lemma SameCounts(h: Preamble, g: Preamble)
    requires h.literals == g.literals >= 257 && h.distances == g.distances >= 1 && h.codes == g.codes >= 4
    ensures EncodeCounts(h) == EncodeCounts(g)
  {
  }

  // ---- stored blocks ----

  lemma U16Written(b: seq<bool>, pos: nat, v: nat)
    requires pos % 8 == 0 && |b| % 8 == 0 && v <= 0xFFFF && StandsAt(b, pos, ToBits(v, 16))
    ensures ReadU16(b, pos) == Ok((v, pos + 16))
  {
    hide Value, ToBits;
    var w := b[pos..pos + 16];
    assert b[pos..pos + 8] == w[..8] && b[pos + 8..pos + 16] == w[8..];
    U16Bytes(w);
    Pow2Values();
    ValueOfToBits(v, 16);
  }

  /** Sixteen bits read as two bytes, low byte first. */
  lemma U16Bytes(w: seq<bool>)
    requires |w| == 16
    ensures Value(w) == Value(w[..8]) + 0x100 * Value(w[8..])
  {
    assert w == w[..8] + w[8..];
    ValueOfAppend(w[..8], w[8..]);
    ShlIsProduct(Value(w[8..]), 8);
    Pow2Values();
  }

  lemma WrittenIsU16(b: seq<bool>, pos: nat)
    requires pos <= |b| && |b| % 8 == 0 && ReadU16(b, pos).Ok?
    ensures StandsAt(b, pos, ToBits(ReadU16(b, pos).value.0, 16)) && ReadU16(b, pos).value.1 == pos + 16
  {
    hide Value, ToBits;
    var w := b[pos..pos + 16];
    assert b[pos..pos + 8] == w[..8] && b[pos + 8..pos + 16] == w[8..];
    U16Bytes(w);
    ToBitsOfValue(w);
  }

  lemma StoredWritten(b: seq<bool>, pos: nat, out: seq<Byte>, limit: nat, padding: seq<bool>, data: seq<Byte>)
    requires |b| % 8 == 0 && |padding| == Aligned(pos) - pos && |data| <= 0xFFFF && |out + data| <= limit
    requires StandsAt(b, pos, padding + ToBits(|data|, 16) + ToBits(0xFFFF - |data|, 16) + Stream(data))
    ensures Stored(b, pos, out, limit) == Ok((out + data, Aligned(pos) + 32 + 8 * |data|))
  {
    hide ToBits, Stream, ReadU16, BytesOf;
    var u, v, p := ToBits(|data|, 16), ToBits(0xFFFF - |data|, 16), Aligned(pos);
    StandsAtConcat(b, pos, padding + u + v, Stream(data));
    StandsAtConcat(b, pos, padding + u, v);
    StandsAtConcat(b, pos, padding, u);
    U16Written(b, p, |data|);
    U16Written(b, p + 16, 0xFFFF - |data|);
    BytesOfStream(data);
  }

  lemma WrittenIsStored(
      b: seq<bool>, pos: nat, out: seq<Byte>, limit: nat) returns (padding: seq<bool>, data: seq<Byte>)
    requires pos <= |b| && |b| % 8 == 0 && |out| <= limit && Stored(b, pos, out, limit).Ok?
    ensures |padding| == Aligned(pos) - pos && |data| <= 0xFFFF && |out + data| <= limit
    ensures StandsAt(b, pos, padding + ToBits(|data|, 16) + ToBits(0xFFFF - |data|, 16) + Stream(data))
    ensures Stored(b, pos, out, limit).value == (out + data, Aligned(pos) + 32 + 8 * |data|)
  {
    hide ToBits, Stream, ReadU16, BytesOf;
    var p := Aligned(pos);
    padding := b[pos..p];
    var length: nat := ReadU16(b, p).value.0;
    WrittenIsU16(b, p);
    WrittenIsU16(b, p + 16);
    var bits := b[p + 32..p + 32 + 8 * length];
    data := BytesOf(bits);
    StreamOfBytes(bits);
    var u, v := ToBits(length, 16), ToBits(0xFFFF - length, 16);
    StandsAtConcat(b, pos, padding, u);
    StandsAtConcat(b, pos, padding + u, v);
    StandsAtConcat(b, pos, padding + u + v, bits);
  }

  // ---- blocks ----

  lemma CompressedWritten(
      lit: seq<nat>, dist: seq<nat>, b: seq<bool>, pos: nat, out: seq<Byte>, limit: nat, tokens: seq<Token>)
    requires UsableTrees(lit, dist) && AllEncodable(lit, dist, tokens) && Playable(out, tokens)
    requires StandsAt(b, pos, EncodeTokens(lit, dist, tokens)) && |Expand(out, tokens)| <= limit
    ensures Compressed(lit, dist, b, pos, out, limit)
         == Ok((Expand(out, tokens), pos + |EncodeTokens(lit, dist, tokens)|))
  {
    hide Symbols, BuildOutcome, EncodeTokens, Expand, Playable, AllEncodable, UsableTrees;
    TreesExact(lit, dist, pos);
    TokensWritten(lit, dist, b, pos, out, limit, tokens);
  }

  lemma WrittenIsCompressed(lit: seq<nat>, dist: seq<nat>, b: seq<bool>, pos: nat, out: seq<Byte>, limit: nat)
    returns (tokens: seq<Token>)
    requires pos <= |b| && |out| <= limit && Compressed(lit, dist, b, pos, out, limit).Ok?
    ensures UsableTrees(lit, dist)
    ensures AllEncodable(lit, dist, tokens) && Playable(out, tokens) && |Expand(out, tokens)| <= limit
    ensures StandsAt(b, pos, EncodeTokens(lit, dist, tokens))
    ensures Compressed(lit, dist, b, pos, out, limit).value
         == (Expand(out, tokens), pos + |EncodeTokens(lit, dist, tokens)|)
  {
    hide Symbols, BuildOutcome, EncodeTokens, Expand, Playable, AllEncodable, UsableTrees;
    TreesExact(lit, dist, pos);
    tokens := WrittenIsTokens(lit, dist, b, pos, out, limit);
  }

  lemma FixedCounts(len: nat)
    ensures Count(FixedLiteralLengths(), len)
         == if len == 7 then 24 else if len == 8 then 152 else if len == 9 then 112 else 0
    ensures Count(FixedDistanceLengths(), len) == if len == 5 then 32 else 0
  {
    var a, b, c, d := Repeat<nat>(8, 144), Repeat<nat>(9, 112), Repeat<nat>(7, 24), Repeat<nat>(8, 8);
    CountAppend(a + b + c, d, len);
    CountAppend(a + b, c, len);
    CountAppend(a, b, len);
    CountRepeat(8, 144, len);
    CountRepeat(9, 112, len);
    CountRepeat(7, 24, len);
    CountRepeat(8, 8, len);
    CountRepeat(5, 32, len);
  }

  lemma FixedLiteralFits(lit: seq<nat>)
    requires lit == FixedLiteralLengths()
    ensures Fits(lit)
  {
    hide Count, Repeat, Pow2, FixedLiteralLengths;
    Pow2Values();
    var len := 0;
    while len < 15
      invariant 0 <= len <= 15
      invariant Left(lit, len) == if len < 7 then Pow2(len) else if len == 7 then 104 else if len == 8 then 56 else 0
      invariant forall k :: 0 <= k <= len ==> Left(lit, k) >= 0
    {
      len := len + 1;
      FixedCounts(len);
    }
  }

  lemma FixedDistanceFits(dist: seq<nat>)
    requires dist == FixedDistanceLengths()
    ensures Fits(dist)
  {
    hide Count, Repeat, Pow2, FixedDistanceLengths;
    Pow2Values();
    var len := 0;
    while len < 15
      invariant 0 <= len <= 15
      invariant Left(dist, len) == if len < 5 then Pow2(len) else 0
      invariant forall k :: 0 <= k <= len ==> Left(dist, k) >= 0
    {
      len := len + 1;
      FixedCounts(len);
    }
  }

  /** The fixed codes of section 3.2.6 are usable: both leave no code free. */
  lemma FixedTreesUsable()
    ensures UsableTrees(FixedLiteralLengths(), FixedDistanceLengths())
  {
    hide Fits;
    FixedLiteralFits(FixedLiteralLengths());
    FixedDistanceFits(FixedDistanceLengths());
    assert FixedLiteralLengths()[0] == 8 && FixedDistanceLengths()[0] == 5;
  }

  lemma {:induction false} CountAppend(a: seq<nat>, c: seq<nat>, len: nat)
    ensures Count(a + c, len) == Count(a, len) + Count(c, len)
  {
    if c == [] {
      assert a + c == a;
    } else {
      assert (a + c)[..|a + c| - 1] == a + c[..|c| - 1];
      CountAppend(a, c[..|c| - 1], len);
    }
  }

  lemma {:induction false} CountRepeat(value: nat, n: nat, len: nat)
    ensures Count(Repeat(value, n), len) == if value == len then n else 0
  {
    if n > 0 {
      assert Repeat(value, n)[..n - 1] == Repeat(value, n - 1);
      CountRepeat(value, n - 1, len);
    }
  }
}
