/**
 NAL unit framing: emulation prevention (section 7.3.1 of ITU-T H.264), the length-prefixed form of MP4, and the
 start codes of Annex B (mft/avcc_to_annexb.cpp, mft/parser_glue.cpp, mft/parser_glue_h265.cpp).
 */
module NalFraming {
  import opened Bits

  type Bytes = seq<byte>

  // ---------------------------------------------------------------- emulation prevention

  /** The encoder's count of zeros after one more byte. */
  function After(b: byte, z: nat): nat {
    if b != 0 then 0 else if z >= 2 then 1 else z + 1
  }

  /** The encoder's side: `z` zeros stand before `s`. A payload that ends in a zero gets a final 3. */
  function Escape(s: Bytes, z: nat): Bytes {
    if s == [] then if z > 0 then [3] else []
    else
      var rest := [s[0]] + Escape(s[1..], After(s[0], z));
      if z >= 2 && s[0] <= 3 then [3] + rest else rest
  }

  /** The zeros the encoder has counted when the payload ends. */
  function EndRun(s: Bytes, z: nat): nat {
    if s == [] then z else EndRun(s[1..], After(s[0], z))
  }

  /** How many zeros a payload ends in. */
  function TrailingZeros(s: Bytes): nat {
    if s == [] || s[|s| - 1] != 0 then 0 else 1 + TrailingZeros(s[..|s| - 1])
  }

  lemma {:induction false} EndRunLast(s: Bytes, b: byte, z: nat)
    ensures EndRun(s + [b], z) == After(b, EndRun(s, z))
    decreases s
  {
    hide After;
    if s == [] {
      assert s + [b] == [b] && [b][1..] == [];
    } else {
      EndRunLast(s[1..], b, After(s[0], z));
      assert (s + [b])[1..] == s[1..] + [b];
    }
  }

  /** The encoder's count starts over with every byte it inserts, and so alternates between 1 and 2. */
  lemma {:induction false} EndRunAlternates(s: Bytes)
    ensures var t := TrailingZeros(s); EndRun(s, 0) == if t == 0 then 0 else if t % 2 == 1 then 1 else 2
  {
    if s != [] {
      var init, last := s[..|s| - 1], s[|s| - 1];
      EndRunAlternates(init);
      EndRunLast(init, last, 0);
      assert s == init + [last];
    }
  }

  /** `ebsp_to_rbsp`. */
  function Unescape(s: Bytes, z: nat): Bytes {
    if s == [] then []
    else if z >= 2 && s[0] == 3 then Unescape(s[1..], 0)
    else [s[0]] + Unescape(s[1..], if s[0] == 0 then z + 1 else 0)
  }

  lemma Regroup(a: Bytes, b: Bytes, c: Bytes)
    ensures a + (b + c) == (a + b) + c
  {}

  lemma UnescapeFirst(b: byte, rest: Bytes, z: nat)
    ensures Unescape([b] + rest, z)
            == if z >= 2 && b == 3 then Unescape(rest, 0) else [b] + Unescape(rest, if b == 0 then z + 1 else 0)
  {
    assert ([b] + rest)[1..] == rest;
  }

  lemma EscapeFirst(s: Bytes, z: nat)
    requires s != []
    ensures var rest := [s[0]] + Escape(s[1..], After(s[0], z));
            Escape(s, z) == if z >= 2 && s[0] <= 3 then [3] + rest else rest
    ensures EndRun(s, z) == EndRun(s[1..], After(s[0], z))
  {
    hide After;
  }

  lemma {:induction false} UnescapeEscape(s: Bytes, z: nat)
    requires z <= 2
    ensures Unescape(Escape(s, z), z) == s + if EndRun(s, z) == 1 then [3] else []
    decreases s
  {
    if s == [] {
      UnescapeOfEnd(z);
    } else {
      hide Unescape, Escape, EndRun, After;
      var b, after := s[0], After(s[0], z);
      var rest := Escape(s[1..], after);
      EscapeFirst(s, z);
      UnescapeEscape(s[1..], after);
      UnescapeStep(b, rest, z);
      assert s == [b] + s[1..];
      Regroup([b], s[1..], if EndRun(s, z) == 1 then [3] else []);
    }
  }

  lemma UnescapeOfEnd(z: nat)
    ensures Unescape(Escape([], z), z) == if z == 1 then [3] else []
  {
    if z > 0 { UnescapeFirst(3, [], z); }
  }

  lemma UnescapeStep(b: byte, rest: Bytes, z: nat)
    requires z <= 2
    ensures var e := if z >= 2 && b <= 3 then [3] + ([b] + rest) else [b] + rest;
            Unescape(e, z) == [b] + Unescape(rest, After(b, z))
  {
    hide Unescape;
    if z >= 2 && b <= 3 {
      UnescapeFirst(3, [b] + rest, z);
      UnescapeFirst(b, rest, 0);
    } else {
      UnescapeFirst(b, rest, z);
    }
  }

  /**
   Removing emulation prevention undoes adding it exactly when the payload ends in an even number of zeros: in a byte
   other than zero, or in whole `cabac_zero_word`s.
   */
  lemma EscapeRoundTripIff(s: Bytes)
    ensures Unescape(Escape(s, 0), 0) == s <==> TrailingZeros(s) % 2 == 0
  {
    hide Unescape, Escape, EndRun;
    UnescapeEscape(s, 0);
    EndRunAlternates(s);
  }

  /** No byte of at most 2 after two zeros. */
  predicate CleanFrom(e: Bytes, z: nat) {
    e == [] || (!(z >= 2 && e[0] <= 2) && CleanFrom(e[1..], if e[0] == 0 then z + 1 else 0))
  }

  predicate StartCode3(buf: Bytes, i: nat) {
    i + 3 <= |buf| && buf[i] == 0 && buf[i + 1] == 0 && buf[i + 2] == 1
  }

  predicate StartCode4(buf: Bytes, i: nat) {
    i + 4 <= |buf| && buf[i] == 0 && buf[i + 1] == 0 && buf[i + 2] == 0 && buf[i + 3] == 1
  }

  /** What a NAL unit must be to be framed: not empty, its last byte not zero, no start code inside. */
  predicate Framable(nal: Bytes) {
    nal != [] && nal[|nal| - 1] != 0 && forall i: nat | i < |nal| :: !StartCode3(nal, i)
  }

  lemma CleanFirst(b: byte, rest: Bytes, z: nat)
    ensures CleanFrom([b] + rest, z) <==> !(z >= 2 && b <= 2) && CleanFrom(rest, if b == 0 then z + 1 else 0)
  {
    assert ([b] + rest)[1..] == rest;
  }

  lemma {:induction false} EscapeIsClean(s: Bytes, z: nat)
    requires z <= 2
    ensures var e := Escape(s, z);
            && CleanFrom(e, z)
            && (e == [] <==> s == [] && z == 0)
            && (e != [] ==> e[|e| - 1] != 0)
    decreases s
  {
    if s == [] {
      CleanFirst(3, [], z);
    } else {
      hide CleanFrom, Escape;
      var b, after := s[0], After(s[0], z);
      var rest := Escape(s[1..], after);
      EscapeFirst(s, z);
      EscapeIsClean(s[1..], after);
      CleanFirst(b, rest, if z >= 2 && b <= 3 then 0 else z);
      CleanFirst(3, [b] + rest, z);
    }
  }

  lemma {:induction false} CleanHasNoStartCode(e: Bytes, z: nat, i: nat)
    requires CleanFrom(e, z)
    ensures !StartCode3(e, i)
    decreases e
  {
    if i > 0 && e != [] {
      CleanHasNoStartCode(e[1..], if e[0] == 0 then z + 1 else 0, i - 1);
    } else if i == 0 && |e| >= 3 && e[0] == 0 && e[1] == 0 {
      assert CleanFrom(e[1..][1..], z + 2);
      assert e[1..][1..][0] == e[2];
    }
  }

  lemma EscapedIsFramable(s: Bytes)
    requires s != []
    ensures Framable(Escape(s, 0))
  {
    EscapeIsClean(s, 0);
    forall i: nat | i < |Escape(s, 0)| ensures !StartCode3(Escape(s, 0), i) {
      CleanHasNoStartCode(Escape(s, 0), 0, i);
    }
  }

  // ---------------------------------------------------------------- start codes

  const START: Bytes := [0, 0, 0, 1]

  function AnnexB(nals: seq<Bytes>): Bytes {
    if nals == [] then [] else START + nals[0] + AnnexB(nals[1..])
  }

  /** The byte after the next start code, and where that code begins; the end of the buffer twice if there is none. */
  datatype Found = Found(payload: nat, code: nat)

  function FindStartCode(buf: Bytes, from: nat): (r: Found)
    requires from <= |buf|
    ensures from <= r.code <= r.payload <= |buf|
    ensures r.code < |buf| ==> r.payload >= r.code + 3
    decreases |buf| - from
  {
    if from + 3 > |buf| then Found(|buf|, |buf|)
    else if StartCode3(buf, from) then Found(from + 3, from)
    else if StartCode4(buf, from) then Found(from + 4, from)
    else FindStartCode(buf, from + 1)
  }

  /** Where the NAL unit that starts at `start` ends. A start code right at `start` is not seen as its end. */
  function NalEnd(buf: Bytes, start: nat): (end: nat)
    requires start < |buf|
    ensures start < end <= |buf|
  {
    var next := FindStartCode(buf, start).code;
    if next > start then next else |buf|
  }

  /** The NAL units the parsers' loop visits from `pos` on. */
  function Nals(buf: Bytes, pos: nat): seq<Bytes>
    requires pos <= |buf|
    decreases |buf| - pos
  {
    var start := FindStartCode(buf, pos).payload;
    if start >= |buf| then [] else [buf[start..NalEnd(buf, start)]] + Nals(buf, NalEnd(buf, start))
  }

  predicate AllFramable(nals: seq<Bytes>) { forall i | 0 <= i < |nals| :: Framable(nals[i]) }

  lemma {:induction false} NothingBefore(buf: Bytes, from: nat, end: nat)
    requires from <= end <= |buf|
    requires forall i: nat | from <= i < end :: !StartCode3(buf, i) && !StartCode4(buf, i)
    ensures FindStartCode(buf, from) == FindStartCode(buf, end)
    decreases end - from
  {
    if from < end {
      NothingBefore(buf, from + 1, end);
    }
  }

  /** In a stream, no start code begins inside a NAL unit, not even one that would end past it. */
  lemma NoCodeInNal(buf: Bytes, start: nat, nal: Bytes)
    requires Framable(nal) && start + |nal| <= |buf| && buf[start..start + |nal|] == nal
    ensures forall i: nat | start <= i < start + |nal| :: !StartCode3(buf, i) && !StartCode4(buf, i)
  {
    forall i: nat | start <= i < start + |nal| ensures !StartCode3(buf, i) && !StartCode4(buf, i) {
      assert forall k: nat | k < |nal| :: nal[k] == buf[start + k];
      assert !StartCode3(nal, i - start);
      assert i + 1 < start + |nal| ==> !StartCode3(nal, i + 1 - start);
    }
  }

  lemma StartHere(buf: Bytes, pos: nat, rest: Bytes)
    requires pos <= |buf| && buf[pos..] == START + rest
    ensures FindStartCode(buf, pos) == Found(pos + 4, pos) && StartCode4(buf, pos)
    ensures pos + 4 <= |buf| && buf[pos + 4..] == rest
  {
    var tail := buf[pos..];
    assert tail[0] == START[0] && tail[1] == START[1] && tail[2] == START[2] && tail[3] == START[3];
    assert buf[pos] == 0 && buf[pos + 1] == 0 && buf[pos + 2] == 0 && buf[pos + 3] == 1;
    assert buf[pos + 4..] == tail[4..];
  }

  lemma FirstNal(buf: Bytes, pos: nat, nals: seq<Bytes>)
    requires nals != [] && pos <= |buf| && buf[pos..] == AnnexB(nals)
    ensures var start := pos + 4;
            var end := start + |nals[0]|;
            && end <= |buf| && FindStartCode(buf, pos) == Found(start, pos)
            && buf[start..end] == nals[0] && buf[end..] == AnnexB(nals[1..])
  {
    hide FindStartCode;
    var nal, rest := nals[0], AnnexB(nals[1..]);
    assert START + nal + rest == START + (nal + rest);
    StartHere(buf, pos, nal + rest);
    assert buf[pos + 4..][..|nal|] == nal && buf[pos + 4..][|nal|..] == rest;
  }

  /** A stream begins with a start code, or is empty. */
  lemma CodeHere(buf: Bytes, pos: nat, nals: seq<Bytes>)
    requires pos <= |buf| && buf[pos..] == AnnexB(nals)
    ensures FindStartCode(buf, pos).code == pos
    ensures nals == [] ==> FindStartCode(buf, pos).payload == |buf|
  {
    if nals != [] { FirstNal(buf, pos, nals); }
  }

  /** The loop takes a stream apart into the NAL units it was put together from. */
  lemma {:induction false} NalsInvertsAnnexB(buf: Bytes, pos: nat, nals: seq<Bytes>)
    requires AllFramable(nals) && pos <= |buf| && buf[pos..] == AnnexB(nals)
    ensures Nals(buf, pos) == nals
    decreases nals
  {
    hide FindStartCode, Framable, StartCode3, StartCode4, AnnexB;
    CodeHere(buf, pos, nals);
    if nals != [] {
      var start := pos + 4;
      var end := start + |nals[0]|;
      FirstNal(buf, pos, nals);
      NoCodeInNal(buf, start, nals[0]);
      NothingBefore(buf, start, end);
      CodeHere(buf, end, nals[1..]);
      NonEmpty(nals[0]);
      NalsInvertsAnnexB(buf, end, nals[1..]);
    }
  }

  lemma NonEmpty(nal: Bytes)
    requires Framable(nal)
    ensures nal != []
  {}

  // ---------------------------------------------------------------- length prefixes

  predicate LenSize(n: nat) { n == 1 || n == 2 || n == 4 }

  function ReadBe(s: Bytes): nat {
    if s == [] then 0 else 256 * ReadBe(s[..|s| - 1]) + s[|s| - 1]
  }

  function WriteBe(v: nat, n: nat): (s: Bytes)
    ensures |s| == n
  {
    if n == 0 then [] else WriteBe(v / 256, n - 1) + [v % 256]
  }

  lemma {:induction false} ReadWriteBe(v: nat, n: nat)
    requires v < Pow2(8 * n)
    ensures ReadBe(WriteBe(v, n)) == v
  {
    if n > 0 {
      Pow2Add(8, 8 * (n - 1));
      Pow2Bytes();
      DivBelow(v, 256, Pow2(8 * (n - 1)));
      ReadWriteBe(v / 256, n - 1);
      assert WriteBe(v, n)[..n - 1] == WriteBe(v / 256, n - 1);
    }
  }

  lemma {:induction false} WriteReadBe(s: Bytes)
    ensures ReadBe(s) < Pow2(8 * |s|) && WriteBe(ReadBe(s), |s|) == s
  {
    if s != [] {
      var head := s[..|s| - 1];
      WriteReadBe(head);
      Pow2Add(8, 8 * |head|);
      Pow2Bytes();
      assert s == head + [s[|s| - 1]];
    }
  }

  /** Not empty, and short enough for the length field. */
  predicate Prefixable(nals: seq<Bytes>, n: nat) {
    forall i | 0 <= i < |nals| :: 0 < |nals[i]| < Pow2(8 * n)
  }

  function Avcc(nals: seq<Bytes>, n: nat): Bytes {
    if nals == [] then [] else WriteBe(|nals[0]|, n) + nals[0] + Avcc(nals[1..], n)
  }

  datatype Split = Malformed | Split(nals: seq<Bytes>)

  /** The length of the first unit; 0 if the prefix is cut off, zero, or longer than what is left. */
  function FirstLen(s: Bytes, n: nat): (len: nat)
    ensures len > 0 ==> n + len <= |s|
  {
    if |s| < n then 0
    else
      var len := ReadBe(s[..n]);
      if |s| - n < len then 0 else len
  }

  /** What the prefixes say, or that one of them cannot be followed. */
  function ParseAvcc(s: Bytes, n: nat): Split
    requires n > 0
  {
    if s == [] then Split([])
    else
      var len := FirstLen(s, n);
      if len == 0 then Malformed
      else
        match ParseAvcc(s[n + len..], n)
        case Malformed => Malformed
        case Split(rest) => Split([s[n..n + len]] + rest)
  }

  lemma {:induction false} ParseInvertsAvcc(nals: seq<Bytes>, n: nat)
    requires n > 0 && Prefixable(nals, n)
    ensures ParseAvcc(Avcc(nals, n), n) == Split(nals)
    decreases nals
  {
    hide Pow2, ReadBe, WriteBe, FirstLen;
    if nals != [] {
      var nal, rest := nals[0], Avcc(nals[1..], n);
      ReadWriteBe(|nal|, n);
      ParseInvertsAvcc(nals[1..], n);
      FirstUnit(WriteBe(|nal|, n), nal, rest);
    }
  }

  lemma FirstUnit(prefix: Bytes, nal: Bytes, rest: Bytes)
    requires ReadBe(prefix) == |nal|
    ensures var s, n := prefix + nal + rest, |prefix|;
            FirstLen(s, n) == |nal| && s[n..n + |nal|] == nal && s[n + |nal|..] == rest
  {
    hide ReadBe;
    assert (prefix + nal + rest)[..|prefix|] == prefix;
  }

  /** Only what the prefixed form of some NAL units is, is well formed. */
  lemma {:induction false} AvccInvertsParse(s: Bytes, n: nat)
    requires n > 0 && ParseAvcc(s, n).Split?
    ensures Avcc(ParseAvcc(s, n).nals, n) == s && Prefixable(ParseAvcc(s, n).nals, n)
    decreases s
  {
    hide Pow2, ReadBe, WriteBe;
    if s != [] {
      var len := FirstLen(s, n);
      WriteReadBe(s[..n]);
      AvccInvertsParse(s[n + len..], n);
      assert s == s[..n] + s[n..n + len] + s[n + len..];
    }
  }

  /** Every NAL unit trades its prefix of `n` bytes for a start code of 4. */
  lemma {:induction false} SizesDiffer(nals: seq<Bytes>, n: nat)
    requires n <= 4
    ensures |AnnexB(nals)| == |Avcc(nals, n)| + |nals| * (4 - n)
    decreases nals
  {
    if nals != [] {
      SizesDiffer(nals[1..], n);
      assert |nals| * (4 - n) == |nals[1..]| * (4 - n) + (4 - n);
    }
  }

  // ---------------------------------------------------------------- all of it

  function EscapeAll(rbsps: seq<Bytes>): (nals: seq<Bytes>)
    ensures |nals| == |rbsps| && forall i | 0 <= i < |rbsps| :: nals[i] == Escape(rbsps[i], 0)
  {
    seq(|rbsps|, i requires 0 <= i < |rbsps| => Escape(rbsps[i], 0))
  }

  function UnescapeAll(nals: seq<Bytes>): (rbsps: seq<Bytes>)
    ensures |rbsps| == |nals| && forall i | 0 <= i < |nals| :: rbsps[i] == Unescape(nals[i], 0)
  {
    seq(|nals|, i requires 0 <= i < |nals| => Unescape(nals[i], 0))
  }

  /** Payloads that are not empty and end in an even number of zeros. */
  predicate Payloads(rbsps: seq<Bytes>) {
    forall i | 0 <= i < |rbsps| :: rbsps[i] != [] && TrailingZeros(rbsps[i]) % 2 == 0
  }

  /**
   Payloads escaped by an encoder, put into length-prefixed samples, turned into a start-code stream, taken apart
   again and unescaped come back as they were, in order.
   */
  lemma FramingRoundTrip(rbsps: seq<Bytes>, n: nat)
    requires LenSize(n) && Payloads(rbsps) && Prefixable(EscapeAll(rbsps), n)
    ensures var parsed := ParseAvcc(Avcc(EscapeAll(rbsps), n), n);
            parsed.Split? && UnescapeAll(Nals(AnnexB(parsed.nals), 0)) == rbsps
  {
    hide Escape, Unescape, TrailingZeros, Framable, Nals, AnnexB, ParseAvcc, Avcc, Pow2;
    var nals := EscapeAll(rbsps);
    ParseInvertsAvcc(nals, n);
    forall i | 0 <= i < |rbsps| ensures Framable(nals[i]) && Unescape(nals[i], 0) == rbsps[i] {
      EscapedIsFramable(rbsps[i]);
      EscapeRoundTripIff(rbsps[i]);
    }
    assert AnnexB(nals)[0..] == AnnexB(nals);
    NalsInvertsAnnexB(AnnexB(nals), 0, nals);
  }

  // ---------------------------------------------------------------- the loops

  lemma {:induction false} AnnexBBoth(a: seq<Bytes>, b: seq<Bytes>)
    ensures AnnexB(a + b) == AnnexB(a) + AnnexB(b)
    decreases a
  {
    if a == [] {
      assert a + b == b;
    } else {
      AnnexBBoth(a[1..], b);
      assert (a + b)[1..] == a[1..] + b;
      Regroup(START + a[0], AnnexB(a[1..]), AnnexB(b));
    }
  }

  lemma ReadBeMore(s: Bytes, b: byte)
    ensures ReadBe(s + [b]) == 256 * ReadBe(s) + b
  {
    assert (s + [b])[..|s|] == s;
  }

  lemma ReadBeSmall(a: byte, b: byte, c: byte, d: byte)
    ensures ReadBe([a]) == a as int && ReadBe([a, b]) == 256 * (a as int) + b as int
    ensures ReadBe([a, b, c, d]) == 0x100_0000 * (a as int) + 0x1_0000 * (b as int) + 256 * (c as int) + d as int
  {
    ReadBeMore([], a);
    ReadBeMore([a], b);
    ReadBeMore([a, b], c);
    ReadBeMore([a, b, c], d);
    assert [] + [a] == [a] && [a] + [b] == [a, b];
    assert [a, b] + [c] == [a, b, c] && [a, b, c] + [d] == [a, b, c, d];
  }

  /** `read_be_len`; the caller has checked the size. */
  function ReadBeLen(p: Bytes, n: nat): (v: nat)
    requires LenSize(n) && |p| == n
    ensures v == ReadBe(p)
  {
    if n == 1 then
      ReadBeSmall(p[0], 0, 0, 0);
      assert p == [p[0]];
      p[0] as int
    else if n == 2 then
      ReadBeSmall(p[0], p[1], 0, 0);
      assert p == [p[0], p[1]];
      256 * (p[0] as int) + p[1] as int
    else
      ReadBeSmall(p[0], p[1], p[2], p[3]);
      assert p == [p[0], p[1], p[2], p[3]];
      0x100_0000 * (p[0] as int) + 0x1_0000 * (p[1] as int) + 256 * (p[2] as int) + p[3] as int
  }

  function Prepend(done: seq<Bytes>, rest: Split): Split {
    match rest
    case Malformed => Malformed
    case Split(nals) => Split(done + nals)
  }

  lemma PrependTwice(done: seq<Bytes>, nal: Bytes, rest: Split)
    ensures Prepend(done, Prepend([nal], rest)) == Prepend(done + [nal], rest)
  {
    if rest.Split? { assert done + ([nal] + rest.nals) == done + [nal] + rest.nals; }
  }

  lemma PrependToMalformed(done: seq<Bytes>)
    ensures Prepend(done, Malformed) == Malformed
  {}

  lemma ParseStep(input: Bytes, n: nat, at: nat)
    requires n > 0 && at < |input|
    ensures var parsed, len, body := ParseAvcc(input[at..], n), FirstLen(input[at..], n), at + n;
            if len == 0 then parsed == Malformed
            else parsed == Prepend([input[body..body + len]], ParseAvcc(input[body + len..], n))
  {
    hide FirstLen;
    var len := FirstLen(input[at..], n);
    if len > 0 { SliceOfRest(input, at, n, n + len); }
  }

  lemma SliceOfRest(s: Bytes, at: nat, i: nat, j: nat)
    requires i <= j && at + j <= |s|
    ensures s[at..][i..j] == s[at + i..at + j] && s[at..][j..] == s[at + j..]
  {}

  lemma FirstLenAt(input: Bytes, n: nat, at: nat)
    requires at <= |input|
    ensures FirstLen(input[at..], n)
         == if |input| - at < n then 0
            else
              var len := ReadBe(input[at..at + n]);
              if |input| - (at + n) < len then 0 else len
  {
    if at + n <= |input| { SliceOfRest(input, at, 0, n); }
  }

  /**
   The 32-bit sum of a length and a start code is compared with the room left in the output: for every unit up to the
   first that does not fit, the comparison comes out as that of the sum itself.
   */
  predicate RoomIsChecked(s: Bytes, n: nat, room: nat)
    requires n > 0
  {
    var len := FirstLen(s, n);
    len == 0 ||
    if 4 + len <= room then RoomIsChecked(s[n + len..], n, room - 4 - len) else room < Wrap32(4 + len)
  }

  /** It does for lengths of one or two bytes, and for any input shorter than 2^32 bytes. */
  lemma {:induction false} ShortInputIsChecked(s: Bytes, n: nat, room: nat)
    requires LenSize(n) && (n == 4 ==> |s| < 0x1_0000_0000)
    ensures RoomIsChecked(s, n, room)
    decreases s
  {
    hide Wrap32, ReadBe, Pow2;
    var len := FirstLen(s, n);
    if len > 0 {
      WriteReadBe(s[..n]);
      Pow2Bytes();
      if 4 + len <= room { ShortInputIsChecked(s[n + len..], n, room - 4 - len); }
    }
  }

  lemma RoomStep(input: Bytes, n: nat, at: nat, room: nat)
    requires n > 0 && at <= |input| && RoomIsChecked(input[at..], n, room)
    ensures var len := FirstLen(input[at..], n);
            len > 0 ==> if 4 + len <= room then RoomIsChecked(input[at + n + len..], n, room - 4 - len)
                        else room < Wrap32(4 + len)
  {
    hide FirstLen, Wrap32;
    var len := FirstLen(input[at..], n);
    if len > 0 { SliceOfRest(input, at, n, n + len); }
  }

  lemma AnnexBMore(done: seq<Bytes>, nal: Bytes)
    ensures AnnexB(done + [nal]) == AnnexB(done) + START + nal
  {
    AnnexBBoth(done, [nal]);
    assert AnnexB([nal]) == START + nal + [];
  }

  predicate Converts(input: Bytes, n: nat, capacity: nat) {
    LenSize(n) && ParseAvcc(input, n).Split?
    && |AnnexB(ParseAvcc(input, n).nals)| <= capacity && |AnnexB(ParseAvcc(input, n).nals)| <= 0x7FFF_FFFF
  }

  lemma TooLong(input: Bytes, n: nat, capacity: nat, done: seq<Bytes>, nal: Bytes, rest: Split)
    requires n > 0 && ParseAvcc(input, n) == Prepend(done, Prepend([nal], rest))
    requires |AnnexB(done)| + 4 + |nal| > capacity
    ensures !Converts(input, n, capacity)
  {
    PrependTwice(done, nal, rest);
    AnnexBMore(done, nal);
    if rest.Split? { AnnexBBoth(done + [nal], rest.nals); }
  }

  /** A start code and a NAL unit. */
  method Emit(nal: Bytes, out: array<byte>, at: nat)
    requires at + 4 + |nal| <= out.Length
    modifies out
    ensures out[..at + 4 + |nal|] == old(out[..at]) + START + nal
    ensures forall k | at + 4 + |nal| <= k < out.Length :: out[k] == old(out[k])
  {
    forall k | 0 <= k < 4 { out[at + k] := START[k]; }
    forall k | 0 <= k < |nal| { out[at + 4 + k] := nal[k]; }
  }

  /**
   Succeeds exactly on well-formed input whose stream fits the output and an `int`, as long as no wrapped sum lets a
   unit through that does not fit.
   */
  method AvccToAnnexB(input: Bytes, n: nat, out: array<byte>) returns (r: int)
    requires LenSize(n) ==> RoomIsChecked(input, n, out.Length)
    modifies out
    ensures r >= 0 <==> Converts(input, n, out.Length)
    ensures r >= 0 ==> r == |AnnexB(ParseAvcc(input, n).nals)| <= out.Length
    ensures r >= 0 ==> out[..r] == AnnexB(ParseAvcc(input, n).nals) && out[r..] == old(out[r..])
    ensures r < 0 ==> r == -1
  {
    hide AnnexB, ParseAvcc, ReadBe, FirstLen, RoomIsChecked, Wrap32, Prepend;
    if n != 1 && n != 2 && n != 4 { return -1; }
    var inOff: nat, outOff: nat := 0, 0;
    ghost var done: seq<Bytes>, parsed := [], ParseAvcc(input, n);
    assert input[0..] == input;
    NothingYet(parsed);
    while inOff < |input|
      invariant inOff <= |input| && outOff <= out.Length
      invariant parsed == Prepend(done, ParseAvcc(input[inOff..], n))
      invariant RoomIsChecked(input[inOff..], n, out.Length - outOff)
      invariant out[..outOff] == AnnexB(done) && (forall k | outOff <= k < out.Length :: out[k] == old(out[k]))
    {
      ParseStep(input, n, inOff);
      assert Prepend(done, Malformed) == Malformed by { PrependToMalformed(done); }
      FirstLenAt(input, n, inOff);
      RoomStep(input, n, inOff, out.Length - outOff);
      if |input| - inOff < n { return -1; }
      var nalLen := ReadBeLen(input[inOff..inOff + n], n);
      inOff := inOff + n;
      if nalLen == 0 { return -1; }
      if |input| - inOff < nalLen { return -1; }
      ghost var nal, rest := input[inOff..inOff + nalLen], ParseAvcc(input[inOff + nalLen..], n);
      if out.Length - outOff < Wrap32(4 + nalLen) {
        TooLong(input, n, out.Length, done, nal, rest);
        return -1;
      }
      Emit(input[inOff..inOff + nalLen], out, outOff);
      outOff := outOff + 4 + nalLen;
      inOff := inOff + nalLen;
      PrependTwice(done, nal, rest);
      AnnexBMore(done, nal);
      done := done + [nal];
    }
    assert input[inOff..] == [];
    NothingLeft(done, n);
    if outOff > 0x7FFF_FFFF { return -1; }
    r := outOff;
  }

  lemma NothingYet(parsed: Split)
    ensures AnnexB([]) == [] && parsed == Prepend([], parsed)
  {
    if parsed.Split? { assert [] + parsed.nals == parsed.nals; }
  }

  lemma NothingLeft(done: seq<Bytes>, n: nat)
    requires n > 0
    ensures Prepend(done, ParseAvcc([], n)) == Split(done)
  {
    assert done + [] == done;
  }

  // ---------------------------------------------------------------- the parsers' side

  method FindCode(buf: Bytes, from: nat) returns (payload: nat, code: nat)
    requires from <= |buf|
    ensures Found(payload, code) == FindStartCode(buf, from)
  {
    var i := from;
    while i + 3 <= |buf|
      invariant from <= i <= |buf| && FindStartCode(buf, from) == FindStartCode(buf, i)
    {
      if buf[i] == 0 && buf[i + 1] == 0 {
        if buf[i + 2] == 1 { return i + 3, i; }
        if i + 3 < |buf| && buf[i + 2] == 0 && buf[i + 3] == 1 { return i + 4, i; }
      }
      i := i + 1;
    }
    payload, code := |buf|, |buf|;
  }

  lemma {:induction false} UnescapeShrinks(s: Bytes, z: nat)
    ensures |Unescape(s, z)| <= |s|
    decreases s
  {
    if s != [] {
      UnescapeShrinks(s[1..], if z >= 2 && s[0] == 3 then 0 else if s[0] == 0 then z + 1 else 0);
    }
  }

  /** `ebsp_to_rbsp` into `dst`, from `at` on, at most `cap` bytes; 0 if they do not suffice. */
  method EbspToRbsp(src: Bytes, dst: array<byte>, at: nat, cap: nat) returns (n: nat)
    requires at + cap <= dst.Length
    modifies dst
    ensures n == if |Unescape(src, 0)| <= cap then |Unescape(src, 0)| else 0
    ensures |Unescape(src, 0)| <= cap ==> dst[at..at + n] == Unescape(src, 0)
    ensures forall k | 0 <= k < at || at + cap <= k < dst.Length :: dst[k] == old(dst[k])
  {
    hide Unescape;
    var o, zeros: nat := 0, 0;
    assert src[0..] == src;
    for i := 0 to |src|
      invariant o <= cap && Unescape(src, 0) == dst[at..at + o] + Unescape(src[i..], zeros)
      invariant forall k | 0 <= k < at || at + cap <= k < dst.Length :: dst[k] == old(dst[k])
    {
      var b := src[i];
      UnescapeAt(src, i, zeros);
      if zeros >= 2 && b == 3 {
        zeros := 0;
      } else {
        if o >= cap { return 0; }
        ghost var sofar := dst[at..at + o];
        dst[at + o] := b;
        o := o + 1;
        assert dst[at..at + o] == sofar + [b];
        zeros := if b == 0 then zeros + 1 else 0;
        Reassociate(sofar, b, Unescape(src[i + 1..], zeros));
      }
    }
    UnescapeDone(src, zeros);
    n := o;
  }

  lemma Reassociate(a: Bytes, b: byte, rest: Bytes)
    ensures a + ([b] + rest) == a + [b] + rest
  {}

  lemma UnescapeAt(src: Bytes, i: nat, z: nat)
    requires i < |src|
    ensures Unescape(src[i..], z)
            == if z >= 2 && src[i] == 3 then Unescape(src[i + 1..], 0)
               else [src[i]] + Unescape(src[i + 1..], if src[i] == 0 then z + 1 else 0)
  {
    assert src[i..] == [src[i]] + src[i + 1..];
    UnescapeFirst(src[i], src[i + 1..], z);
  }

  lemma UnescapeDone(src: Bytes, z: nat)
    ensures Unescape(src[|src|..], z) == []
  {}

  datatype Visited = Invalid | Visited(rbsps: seq<Bytes>)

  /** The NAL loop with its scratch checks: `used` bytes of `cap` hold the payloads so far. */
  function Visit(buf: Bytes, pos: nat, used: nat, cap: nat): Visited
    requires pos <= |buf| && used <= cap
    decreases |buf| - pos
  {
    var start := FindStartCode(buf, pos).payload;
    if start >= |buf| then Visited([])
    else
      var end := NalEnd(buf, start);
      var rbsp := Unescape(buf[start..end], 0);
      if used + (end - start) > cap || rbsp == [] || |rbsp| > cap - used then Invalid
      else
        match Visit(buf, end, used + |rbsp|, cap)
        case Invalid => Invalid
        case Visited(rest) => Visited([rbsp] + rest)
  }

  /** A scratch as large as the stream is always enough: only a NAL unit without a payload stops the loop. */
  lemma {:induction false} VisitWithRoom(buf: Bytes, pos: nat, used: nat, cap: nat)
    requires pos <= |buf| && used + (|buf| - pos) <= cap
    ensures Visit(buf, pos, used, cap)
            == if [] in UnescapeAll(Nals(buf, pos)) then Invalid else Visited(UnescapeAll(Nals(buf, pos)))
    decreases |buf| - pos
  {
    hide FindStartCode, Unescape;
    var start := FindStartCode(buf, pos).payload;
    if start < |buf| {
      var end := NalEnd(buf, start);
      var nal, rest := buf[start..end], Nals(buf, end);
      UnescapeShrinks(nal, 0);
      VisitWithRoom(buf, end, used + |Unescape(nal, 0)|, cap);
      assert UnescapeAll([nal] + rest) == [Unescape(nal, 0)] + UnescapeAll(rest);
    }
  }

  /** The bytes of the payloads of the units. */
  function PayloadBytes(nals: seq<Bytes>): nat {
    if nals == [] then 0 else |Unescape(nals[0], 0)| + PayloadBytes(nals[1..])
  }

  /** Unit `k` has a payload, and the whole unit fits behind the payloads before it. */
  predicate UnitFits(nals: seq<Bytes>, k: nat, used: nat, cap: nat)
    requires k < |nals|
  {
    Unescape(nals[k], 0) != [] && used + PayloadBytes(nals[..k]) + |nals[k]| <= cap
  }

  predicate AllFit(nals: seq<Bytes>, used: nat, cap: nat) { forall k: nat | k < |nals| :: UnitFits(nals, k, used, cap) }

  lemma PayloadsMore(nal: Bytes, rest: seq<Bytes>)
    ensures PayloadBytes([nal] + rest) == |Unescape(nal, 0)| + PayloadBytes(rest) && PayloadBytes([]) == 0
  {
    assert ([nal] + rest)[1..] == rest;
  }

  lemma FirstFits(nal: Bytes, rest: seq<Bytes>, used: nat, cap: nat)
    ensures UnitFits([nal] + rest, 0, used, cap) <==> Unescape(nal, 0) != [] && used + |nal| <= cap
  {
    hide Unescape;
    assert ([nal] + rest)[..0] == [];
    PayloadsMore(nal, rest);
  }

  lemma NextFits(nal: Bytes, rest: seq<Bytes>, k: nat, used: nat, cap: nat)
    requires k < |rest|
    ensures UnitFits([nal] + rest, k + 1, used, cap) == UnitFits(rest, k, used + |Unescape(nal, 0)|, cap)
  {
    hide Unescape, PayloadBytes;
    assert ([nal] + rest)[..k + 1] == [nal] + rest[..k];
    PayloadsMore(nal, rest[..k]);
  }

  lemma AllFitFirst(nal: Bytes, rest: seq<Bytes>, used: nat, cap: nat)
    ensures AllFit([nal] + rest, used, cap)
            <==> Unescape(nal, 0) != [] && used + |nal| <= cap && AllFit(rest, used + |Unescape(nal, 0)|, cap)
  {
    hide Unescape, PayloadBytes, UnitFits;
    var nals, next := [nal] + rest, used + |Unescape(nal, 0)|;
    FirstFits(nal, rest, used, cap);
    if AllFit(rest, next, cap) && UnitFits(nals, 0, used, cap) {
      forall k: nat | k < |nals| ensures UnitFits(nals, k, used, cap) {
        if k > 0 { NextFits(nal, rest, k - 1, used, cap); }
      }
    }
    if AllFit(nals, used, cap) {
      forall k: nat | k < |rest| ensures UnitFits(rest, k, next, cap) { NextFits(nal, rest, k, used, cap); }
    }
  }

  /** Every scratch, large or small: the loop gives all the payloads exactly if every unit has one and finds room. */
  lemma {:induction false} VisitSucceedsIff(buf: Bytes, pos: nat, used: nat, cap: nat)
    requires pos <= |buf| && used <= cap
    ensures Visit(buf, pos, used, cap)
            == if AllFit(Nals(buf, pos), used, cap) then Visited(UnescapeAll(Nals(buf, pos))) else Invalid
    decreases |buf| - pos
  {
    hide FindStartCode, Unescape, AllFit;
    var start := FindStartCode(buf, pos).payload;
    if start < |buf| {
      var end := NalEnd(buf, start);
      var nal, rest := buf[start..end], Nals(buf, end);
      UnescapeShrinks(nal, 0);
      AllFitFirst(nal, rest, used, cap);
      if Unescape(nal, 0) != [] && used + |nal| <= cap {
        VisitSucceedsIff(buf, end, used + |Unescape(nal, 0)|, cap);
        assert UnescapeAll([nal] + rest) == [Unescape(nal, 0)] + UnescapeAll(rest);
      }
    } else {
      NoUnitsFit(used, cap);
    }
  }

  lemma NoUnitsFit(used: nat, cap: nat)
    ensures AllFit([], used, cap)
  {}

  function Concat(parts: seq<Bytes>): Bytes {
    if parts == [] then [] else Concat(parts[..|parts| - 1]) + parts[|parts| - 1]
  }

  lemma ConcatNone()
    ensures Concat([]) == []
  {}

  lemma ConcatMore(parts: seq<Bytes>, part: Bytes)
    ensures Concat(parts + [part]) == Concat(parts) + part
  {
    assert (parts + [part])[..|parts|] == parts;
  }

  function Before(done: seq<Bytes>, rest: Visited): Visited {
    match rest
    case Invalid => Invalid
    case Visited(rbsps) => Visited(done + rbsps)
  }

  lemma VisitStep(buf: Bytes, pos: nat, used: nat, cap: nat, done: seq<Bytes>)
    requires pos <= |buf| && used <= cap
    ensures var start := FindStartCode(buf, pos).payload;
            if start >= |buf| then Before(done, Visit(buf, pos, used, cap)) == Visited(done)
            else
              var end := NalEnd(buf, start);
              var rbsp := Unescape(buf[start..end], 0);
              if used + (end - start) > cap || rbsp == [] || |rbsp| > cap - used
              then Visit(buf, pos, used, cap) == Invalid
              else Before(done, Visit(buf, pos, used, cap))
                   == Before(done + [rbsp], Visit(buf, end, used + |rbsp|, cap))
  {
    hide FindStartCode, Unescape, NalEnd;
    assert done + [] == done;
    var start := FindStartCode(buf, pos).payload;
    if start < |buf| {
      var end := NalEnd(buf, start);
      var rbsp := Unescape(buf[start..end], 0);
      if used + (end - start) <= cap && rbsp != [] && |rbsp| <= cap - used {
        var next := Visit(buf, end, used + |rbsp|, cap);
        if next.Visited? { assert done + ([rbsp] + next.rbsps) == done + [rbsp] + next.rbsps; }
      }
    }
  }

  /** The NAL loop of `H264ParseAccessUnit`, what it does with each payload left out. */
  method VisitNals(buf: Bytes, scratch: array<byte>) returns (ok: bool, rbsps: seq<Bytes>)
    modifies scratch
    ensures (if ok then Visited(rbsps) else Invalid) == Visit(buf, 0, 0, scratch.Length)
    ensures ok ==> Concat(rbsps) <= scratch[..]
  {
    hide FindStartCode, Unescape, Visit, Concat;
    var used: nat, pos: nat := 0, 0;
    ok, rbsps := false, [];
    ghost var all := Visit(buf, 0, 0, scratch.Length);
    assert Concat([]) == [] by { ConcatNone(); }
    assert all == Before([], all) by { if all.Visited? { assert [] + all.rbsps == all.rbsps; } }
    while pos < |buf|
      invariant pos <= |buf| && used <= scratch.Length
      invariant all == Before(rbsps, Visit(buf, pos, used, scratch.Length))
      invariant scratch[..used] == Concat(rbsps)
    {
      VisitStep(buf, pos, used, scratch.Length, rbsps);
      var start, _ := FindCode(buf, pos);
      if start >= |buf| { break; }
      var _, next := FindCode(buf, start);
      var end := if next > start then next else |buf|;
      if used + (end - start) > scratch.Length { return; }
      var n := EbspToRbsp(buf[start..end], scratch, used, scratch.Length - used);
      if n == 0 { return; }
      ConcatMore(rbsps, scratch[used..used + n]);
      rbsps := rbsps + [scratch[used..used + n]];
      assert scratch[..used + n] == scratch[..used] + scratch[used..used + n];
      used := used + n;
      pos := end;
    }
    if pos >= |buf| { NothingMore(buf, used, scratch.Length, rbsps); }
    ok := true;
  }

  lemma NothingMore(buf: Bytes, used: nat, cap: nat, done: seq<Bytes>)
    requires used <= cap
    ensures Before(done, Visit(buf, |buf|, used, cap)) == Visited(done)
  {
    assert done + [] == done;
  }
}
