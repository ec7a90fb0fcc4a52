/** The access-unit walker over a start-code stream (mft/au_iter.cpp). */
module AuIterator {
  import opened Bits
  import opened NalFraming

  datatype Codec = H264 | H265

  /** `h264_nal_is_slice` and `h265_nal_is_slice`, on the first header byte. */
  predicate IsSlice(codec: Codec, header: byte) {
    match codec
    case H264 => header % 32 == 1 || header % 32 == 5
    case H265 => header / 2 % 64 < 32
  }

  /**
   By the fields of the header, in section 7.3.1 of H.264: slices are the coded slices of types 1 and 5, whatever their
   nal_ref_idc; and in section 7.3.1.2 of H.265: the types below 32, whatever the top bit of nuh_layer_id.
   */
  lemma SliceByFields(forbidden: nat, refIdc: nat, kind: nat, layer: nat)
    requires forbidden <= 1 && refIdc < 4 && layer <= 1
    ensures kind < 32 ==> (IsSlice(H264, 128 * forbidden + 32 * refIdc + kind) <==> kind in {1, 5})
    ensures kind < 64 ==> (IsSlice(H265, 128 * forbidden + 2 * kind + layer) <==> kind <= 31)
  {}

  /** The walker's own search reports no end code, only the byte after the code it found. */
  datatype Search = None | At(payload: nat)

  function Next(buf: Bytes, from: nat): (r: Search)
    requires from <= |buf|
    ensures r.At? ==> from + 3 <= r.payload <= |buf| && StartCode3(buf, r.payload - 3)
  {
    var found := FindStartCode(buf, from);
    CodeEndsInThree(buf, from);
    if found.code < |buf| then At(found.payload) else None
  }

  lemma {:induction false} CodeEndsInThree(buf: Bytes, from: nat)
    requires from <= |buf|
    ensures var f := FindStartCode(buf, from);
            f.code < |buf| ==> from + 3 <= f.payload && StartCode3(buf, f.payload - 3)
    decreases |buf| - from
  {
    if from + 3 <= |buf| && !StartCode3(buf, from) && !StartCode4(buf, from) {
      CodeEndsInThree(buf, from + 1);
    }
  }

  lemma NextIs(buf: Bytes, from: nat)
    requires from <= |buf|
    ensures Next(buf, from)
            == if from + 3 > |buf| then None
               else if StartCode3(buf, from) then At(from + 3)
               else if StartCode4(buf, from) then At(from + 4)
               else Next(buf, from + 1)
  {}

  /** `backup_to_4byte_sc`. */
  function Backup(buf: Bytes, i: nat): (r: nat)
    requires i <= |buf|
    ensures i - 1 <= r <= i
  {
    if i > 0 && buf[i - 1] == 0 then i - 1 else i
  }

  /** The first slice among the NAL units from the one at `nh` on. */
  function SliceFrom(buf: Bytes, codec: Codec, nh: nat): (r: Search)
    requires nh <= |buf|
    ensures r.At? ==> nh <= r.payload < |buf| && IsSlice(codec, buf[r.payload])
    decreases |buf| - nh
  {
    if nh >= |buf| then None
    else if IsSlice(codec, buf[nh]) then At(nh)
    else
      match Next(buf, nh + 1)
      case None => None
      case At(next) => SliceFrom(buf, codec, next)
  }

  lemma SliceFromIs(buf: Bytes, codec: Codec, nh: nat)
    requires nh <= |buf|
    ensures SliceFrom(buf, codec, nh)
            == if nh >= |buf| then None
               else if IsSlice(codec, buf[nh]) then At(nh)
               else
                 match Next(buf, nh + 1)
                 case None => None
                 case At(next) => SliceFrom(buf, codec, next)
  {}

  datatype Au = Au(off: nat, len: nat, slice: nat)

  datatype Step = Done | Unit(au: Au, pos: nat)

  /** Where the unit with its slice at `slice` ends: just before the next start code, of three bytes or four. */
  function AuEnd(buf: Bytes, slice: nat): (end: nat)
    requires slice < |buf|
    ensures slice <= end <= |buf|
  {
    match Next(buf, slice + 1)
    case None => |buf|
    case At(next) => Backup(buf, next - 3)
  }

  function Advance(buf: Bytes, codec: Codec, pos: nat): Step
    requires pos <= |buf|
  {
    match Next(buf, pos)
    case None => Done
    case At(first) =>
      match SliceFrom(buf, codec, first)
      case None => Done
      case At(slice) =>
        SliceIsNal(buf, codec, first);
        var off, end := Backup(buf, first - 3), AuEnd(buf, slice);
        Unit(Au(off, end - off, Backup(buf, slice - 3)), end)
  }

  lemma AuEndIs(buf: Bytes, slice: nat)
    requires slice < |buf|
    ensures AuEnd(buf, slice)
            == match Next(buf, slice + 1)
               case None => |buf|
               case At(next) => Backup(buf, next - 3)
  {}

  /** A slice is found behind a start code, and later than where the search began if it is not there. */
  lemma {:induction false} SliceIsNal(buf: Bytes, codec: Codec, nh: nat)
    requires 3 <= nh <= |buf| && StartCode3(buf, nh - 3)
    ensures var r := SliceFrom(buf, codec, nh);
            r.At? ==> StartCode3(buf, r.payload - 3) && (r.payload == nh || r.payload >= nh + 4)
    decreases |buf| - nh
  {
    if nh < |buf| && !IsSlice(codec, buf[nh]) && Next(buf, nh + 1).At? {
      SliceIsNal(buf, codec, Next(buf, nh + 1).payload);
    }
  }

  /** Where a unit may begin: the stream's beginning or end, or a start code with no further zero before it. */
  predicate Boundary(buf: Bytes, pos: nat) {
    pos <= |buf| && (pos == 0 || pos == |buf| || StartCode4(buf, pos) || (StartCode3(buf, pos) && buf[pos - 1] != 0))
  }

  lemma {:induction false} BackupOfNext(buf: Bytes, from: nat)
    requires from <= |buf| && Next(buf, from).At?
    requires from > 0 && buf[from - 1] == 0 ==> !StartCode3(buf, from)
    ensures Backup(buf, Next(buf, from).payload - 3) == FindStartCode(buf, from).code
    decreases |buf| - from
  {
    if from + 3 <= |buf| && !StartCode3(buf, from) && !StartCode4(buf, from) {
      BackupOfNext(buf, from + 1);
    }
  }

  predicate Code(buf: Bytes, i: nat) { StartCode3(buf, i) || StartCode4(buf, i) }

  /** The header byte behind the start code at `i`. */
  function HeaderAt(buf: Bytes, i: nat): nat { if StartCode3(buf, i) then i + 3 else i + 4 }

  /** A start code with a slice behind it. */
  predicate SliceAt(buf: Bytes, codec: Codec, i: nat) {
    Code(buf, i) && HeaderAt(buf, i) < |buf| && IsSlice(codec, buf[HeaderAt(buf, i)])
  }

  /** The slice's header byte belongs to the unit, unless it is a zero that the next start code takes for its own. */
  predicate HeaderInside(buf: Bytes, au: Au) {
    var header, end := HeaderAt(buf, au.slice), au.off + au.len;
    header < end || (header == end < |buf| && buf[header] == 0)
  }

  /** One step from a boundary. */
  predicate GoodStep(buf: Bytes, codec: Codec, pos: nat, s: Step)
    requires pos <= |buf|
  {
    s.Unit? ==>
      && s.au.off == FindStartCode(buf, pos).code && (0 < pos ==> s.au.off == pos)
      && s.au.off + s.au.len == s.pos <= |buf| && pos + 3 <= s.pos && Boundary(buf, s.pos)
      && s.au.off <= s.au.slice && s.au.slice + 3 <= s.pos
      && Code(buf, s.au.off) && SliceAt(buf, codec, s.au.slice) && HeaderInside(buf, s.au)
  }

  lemma StepIsGood(buf: Bytes, codec: Codec, pos: nat)
    requires Boundary(buf, pos)
    ensures GoodStep(buf, codec, pos, Advance(buf, codec, pos))
  {
    hide FindStartCode, SliceFrom, IsSlice;
    var s := Advance(buf, codec, pos);
    if s.Unit? {
      var first := Next(buf, pos).payload;
      SliceIsNal(buf, codec, first);
      FirstCode(buf, pos);
      EndIsBoundary(buf, SliceFrom(buf, codec, first).payload);
    }
  }

  lemma FirstCode(buf: Bytes, pos: nat)
    requires Boundary(buf, pos) && Next(buf, pos).At?
    ensures Backup(buf, Next(buf, pos).payload - 3) == FindStartCode(buf, pos).code
    ensures 0 < pos ==> FindStartCode(buf, pos).code == pos
  {
    BackupOfNext(buf, pos);
  }

  lemma EndIsBoundary(buf: Bytes, slice: nat)
    requires slice < |buf|
    ensures Boundary(buf, AuEnd(buf, slice))
  {
    hide FindStartCode;
  }

  // ---------------------------------------------------------------- the whole walk

  function Walk(buf: Bytes, codec: Codec, pos: nat): seq<Au>
    requires Boundary(buf, pos)
    decreases |buf| - pos
  {
    StepIsGood(buf, codec, pos);
    match Advance(buf, codec, pos)
    case Done => []
    case Unit(au, next) => [au] + Walk(buf, codec, next)
  }

  function Cut(buf: Bytes, aus: seq<Au>): seq<Bytes>
    requires forall i | 0 <= i < |aus| :: aus[i].off + aus[i].len <= |buf|
  {
    seq(|aus|, i requires 0 <= i < |aus| => buf[aus[i].off..aus[i].off + aus[i].len])
  }

  predicate Abut(buf: Bytes, codec: Codec, aus: seq<Au>) {
    && (forall i | 0 <= i < |aus| ::
          && aus[i].off <= aus[i].slice && aus[i].slice + 3 <= aus[i].off + aus[i].len <= |buf|
          && Code(buf, aus[i].off) && SliceAt(buf, codec, aus[i].slice))
    && (forall i | 0 <= i < |aus| :: HeaderInside(buf, aus[i]))
    && (forall i | 0 < i < |aus| :: aus[i].off == aus[i - 1].off + aus[i - 1].len)
  }

  /**
   Repeated calls over any buffer stop, with access units that begin at the first start code, follow each other
   without gap or overlap, begin with a start code, and each hold the start code they report, with a slice behind it.
   */
  lemma {:induction false} WalkTiles(buf: Bytes, codec: Codec, pos: nat)
    requires Boundary(buf, pos)
    ensures var aus := Walk(buf, codec, pos);
            && Abut(buf, codec, aus)
            && 3 * |aus| <= |buf| - pos
            && (aus != [] ==> aus[0].off == FindStartCode(buf, pos).code && (0 < pos ==> aus[0].off == pos))
    decreases |buf| - pos
  {
    hide FindStartCode, Advance, Abut, Code, SliceAt, HeaderInside;
    StepIsGood(buf, codec, pos);
    match Advance(buf, codec, pos)
    case Done => AbutNone(buf, codec);
    case Unit(au, next) =>
      WalkTiles(buf, codec, next);
      AbutFirst(buf, codec, au, Walk(buf, codec, next));
  }

  lemma AbutNone(buf: Bytes, codec: Codec)
    ensures Abut(buf, codec, [])
  {}

  lemma AbutFirst(buf: Bytes, codec: Codec, au: Au, rest: seq<Au>)
    requires Abut(buf, codec, rest) && (rest != [] ==> rest[0].off == au.off + au.len)
    requires au.off <= au.slice && au.slice + 3 <= au.off + au.len <= |buf|
    requires Code(buf, au.off) && SliceAt(buf, codec, au.slice) && HeaderInside(buf, au)
    ensures Abut(buf, codec, [au] + rest)
  {
    hide Code, SliceAt, HeaderInside;
  }

  lemma Joined(buf: Bytes, a: nat, b: nat, c: nat)
    requires a <= b <= c <= |buf|
    ensures buf[a..b] + buf[b..c] == buf[a..c]
  {}

  /** No byte between the first unit's start and the last one's end is lost or repeated. */
  lemma {:induction false} WalkLosesNothing(buf: Bytes, codec: Codec, aus: seq<Au>)
    requires Abut(buf, codec, aus) && aus != []
    ensures aus[0].off <= aus[|aus| - 1].off + aus[|aus| - 1].len <= |buf|
    ensures Concat(Cut(buf, aus)) == buf[aus[0].off..aus[|aus| - 1].off + aus[|aus| - 1].len]
    decreases aus
  {
    hide Abut, Concat, Cut;
    var last := aus[|aus| - 1];
    var before := aus[..|aus| - 1];
    AbutBefore(buf, codec, aus);
    ConcatCut(buf, aus);
    if before == [] {
      ConcatNone();
    } else {
      WalkLosesNothing(buf, codec, before);
      Joined(buf, before[0].off, last.off, last.off + last.len);
    }
  }

  lemma AbutBefore(buf: Bytes, codec: Codec, aus: seq<Au>)
    requires Abut(buf, codec, aus) && aus != []
    ensures Abut(buf, codec, aus[..|aus| - 1])
    ensures forall i | 0 <= i < |aus| :: aus[i].off + aus[i].len <= |buf|
    ensures |aus| > 1 ==> aus[|aus| - 1].off == aus[|aus| - 2].off + aus[|aus| - 2].len
  {
    hide Code, SliceAt, HeaderInside;
  }

  lemma ConcatCut(buf: Bytes, aus: seq<Au>)
    requires aus != [] && forall i | 0 <= i < |aus| :: aus[i].off + aus[i].len <= |buf|
    ensures var last, before := aus[|aus| - 1], aus[..|aus| - 1];
            Concat(Cut(buf, aus)) == Concat(Cut(buf, before)) + buf[last.off..last.off + last.len]
    ensures |aus| == 1 ==> Cut(buf, aus[..|aus| - 1]) == []
  {
    assert Cut(buf, aus)[..|aus| - 1] == Cut(buf, aus[..|aus| - 1]);
  }

  // ---------------------------------------------------------------- the slices of a stream

  /** The header bytes a scan of the stream from `from` on comes to, each search going on behind the last header. */
  function Headers(buf: Bytes, from: nat): seq<nat>
    requires from <= |buf|
    decreases |buf| - from
  {
    match Next(buf, from)
    case None => []
    case At(nh) => if nh >= |buf| then [] else [nh] + Headers(buf, nh + 1)
  }

  function Slices(buf: Bytes, codec: Codec, from: nat): seq<nat>
    requires from <= |buf|
  {
    SlicesOf(buf, codec, Headers(buf, from))
  }

  function SlicesOf(buf: Bytes, codec: Codec, headers: seq<nat>): seq<nat> {
    if headers == [] then []
    else
      var rest := SlicesOf(buf, codec, headers[1..]);
      if headers[0] < |buf| && IsSlice(codec, buf[headers[0]]) then [headers[0]] + rest else rest
  }

  lemma SlicesUnfold(buf: Bytes, codec: Codec, from: nat)
    requires from <= |buf|
    ensures var next := Next(buf, from);
            Slices(buf, codec, from)
            == if next.None? || next.payload >= |buf| then []
               else (if IsSlice(codec, buf[next.payload]) then [next.payload] else [])
                    + Slices(buf, codec, next.payload + 1)
  {
    hide Next, IsSlice;
    var next := Next(buf, from);
    if next.At? && next.payload < |buf| {
      assert ([next.payload] + Headers(buf, next.payload + 1))[1..] == Headers(buf, next.payload + 1);
    }
  }

  /** The walker's inner loop stops at the first slice of the scan. */
  lemma {:induction false} SliceFromIsFirst(buf: Bytes, codec: Codec, nh: nat)
    requires nh < |buf|
    ensures var r := SliceFrom(buf, codec, nh);
            var rest := (if IsSlice(codec, buf[nh]) then [nh] else []) + Slices(buf, codec, nh + 1);
            rest == if r.None? then [] else [r.payload] + Slices(buf, codec, r.payload + 1)
    decreases |buf| - nh
  {
    hide Next, IsSlice, Slices;
    if !IsSlice(codec, buf[nh]) {
      SlicesUnfold(buf, codec, nh + 1);
      var next := Next(buf, nh + 1);
      if next.At? && next.payload < |buf| { SliceFromIsFirst(buf, codec, next.payload); }
    }
  }

  lemma NextIsCode(buf: Bytes, from: nat)
    requires from <= |buf|
    ensures var r := Next(buf, from); r.At? ==> 3 <= r.payload <= |buf| && StartCode3(buf, r.payload - 3)
  {}

  /** A scan from a unit's end comes to the same headers as one from behind its slice. */
  lemma EndKeepsNext(buf: Bytes, slice: nat)
    requires slice < |buf|
    ensures Next(buf, AuEnd(buf, slice)) == Next(buf, slice + 1)
  {
    hide Next;
    NextIsCode(buf, slice + 1);
    NextIs(buf, AuEnd(buf, slice));
  }

  function Reported(buf: Bytes, aus: seq<Au>): seq<nat> {
    if aus == [] then [] else [HeaderAt(buf, aus[0].slice)] + Reported(buf, aus[1..])
  }

  lemma SlicesFromEnd(buf: Bytes, codec: Codec, slice: nat)
    requires slice < |buf|
    ensures Slices(buf, codec, AuEnd(buf, slice)) == Slices(buf, codec, slice + 1)
  {
    hide Next, IsSlice, Slices, AuEnd;
    EndKeepsNext(buf, slice);
    SlicesUnfold(buf, codec, slice + 1);
    SlicesUnfold(buf, codec, AuEnd(buf, slice));
  }

  lemma HeaderOfBackup(buf: Bytes, nh: nat)
    requires 3 <= nh <= |buf| && StartCode3(buf, nh - 3)
    ensures HeaderAt(buf, Backup(buf, nh - 3)) == nh && Code(buf, Backup(buf, nh - 3))
  {}

  lemma AdvanceTakesFirst(buf: Bytes, codec: Codec, pos: nat)
    requires pos <= |buf|
    ensures match Advance(buf, codec, pos)
            case Done => Slices(buf, codec, pos) == []
            case Unit(au, next) =>
              next <= |buf| && Slices(buf, codec, pos) == [HeaderAt(buf, au.slice)] + Slices(buf, codec, next)
  {
    hide Next, IsSlice, Slices, AuEnd, HeaderAt, Backup, StartCode3, StartCode4, SliceFrom;
    NextIsCode(buf, pos);
    SlicesUnfold(buf, codec, pos);
    var first := Next(buf, pos);
    if first.At? && first.payload < |buf| {
      SliceFromIsFirst(buf, codec, first.payload);
      var slice := SliceFrom(buf, codec, first.payload);
      if slice.At? {
        SliceIsNal(buf, codec, first.payload);
        HeaderOfBackup(buf, slice.payload);
        SlicesFromEnd(buf, codec, slice.payload);
      }
    }
  }

  /**
   The walk reports every slice of the stream once, in order: each unit holds exactly one, and when the walk stops
   none is left.
   */
  lemma {:induction false} WalkReportsEverySlice(buf: Bytes, codec: Codec, pos: nat)
    requires Boundary(buf, pos)
    ensures Reported(buf, Walk(buf, codec, pos)) == Slices(buf, codec, pos)
    decreases |buf| - pos
  {
    hide FindStartCode, Advance, Slices, HeaderAt;
    StepIsGood(buf, codec, pos);
    AdvanceTakesFirst(buf, codec, pos);
    match Advance(buf, codec, pos)
    case Done =>
    case Unit(au, next) =>
      WalkReportsEverySlice(buf, codec, next);
      assert ([au] + Walk(buf, codec, next))[1..] == Walk(buf, codec, next);
  }

  // ---------------------------------------------------------------- the iterator

  class AuIter {
    const buf: Bytes
    var pos: nat

    constructor (buf: Bytes)
      ensures this.buf == buf && pos == 0
    {
      this.buf, pos := buf, 0;
    }

    method FindStartCode(from: nat) returns (r: Search)
      requires from <= |buf|
      ensures r == Next(buf, from)
    {
      hide Next;
      var i := from;
      NextIs(buf, from);
      while i + 3 <= |buf|
        invariant from <= i <= |buf| && Next(buf, from) == Next(buf, i)
      {
        NextIs(buf, i);
        if buf[i] == 0 && buf[i + 1] == 0 && buf[i + 2] == 1 { return At(i + 3); }
        if i + 4 <= |buf| && buf[i] == 0 && buf[i + 1] == 0 && buf[i + 2] == 0 && buf[i + 3] == 1 { return At(i + 4); }
        i := i + 1;
      }
      NextIs(buf, i);
      r := None;
    }

    /** `au_next_common`; the outputs and the cursor are untouched when there is no further unit. */
    method AuNext(codec: Codec) returns (r: Step)
      requires pos <= |buf|
      modifies this
      ensures r == Advance(buf, codec, old(pos))
      ensures pos == if r.Unit? then r.pos else old(pos)
      ensures pos <= |buf|
    {
      hide Next, IsSlice, StartCode3, StartCode4, Backup, SliceFrom, AuEnd;
      NextIs(buf, pos);
      if pos >= |buf| { return Done; }
      var first := FindStartCode(pos);
      if first.None? { return Done; }
      var scStart := Backup(buf, first.payload - 3);
      var nh, end := first.payload, |buf|;
      SliceIsNal(buf, codec, first.payload);
      while nh < |buf|
        invariant first.payload <= nh <= |buf| && pos == old(pos)
        invariant SliceFrom(buf, codec, first.payload) == SliceFrom(buf, codec, nh)
        decreases |buf| - nh
      {
        SliceFromIs(buf, codec, nh);
        if IsSlice(codec, buf[nh]) {
          var nxt := FindStartCode(nh + 1);
          match nxt {
            case None => end := |buf|;
            case At(payload) => end := Backup(buf, payload - 3);
          }
          AuEndIs(buf, nh);
          pos := end;
          return Unit(Au(scStart, end - scStart, Backup(buf, nh - 3)), end);
        }
        var nxt := FindStartCode(nh + 1);
        if nxt.None? { return Done; }
        nh := nxt.payload;
      }
      SliceFromIs(buf, codec, nh);
      r := Done;
    }
  }
}
