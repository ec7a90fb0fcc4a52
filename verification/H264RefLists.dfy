/**
 The view of the references `Dpb_Select` hands out: the compact reference list, the buffer handles
 and the three reference lists (sections 8.2.4.1 and 8.2.4.2 of ITU-T H.264).
 */
module H264RefLists {
  import opened DpbTypes
  import opened H264DpbSpec
  import opened StableSort

  datatype DpbEntry = Unused | Entry(longTerm: bool, frameNum: nat, picNum: nat, topPoc: int, bottomPoc: int)

  /**
   What `Dpb_Select` fills in.  `listP` is the source's `ref_lists[0]`, `listB0` and `listB1` its
   `ref_lists[1]` and `[2]`, each without the unused tail.
   */
  datatype Selection = NoSelection | Selection(
    currentSlot: nat, currentOutput: nat, currentColmv: nat,
    refs: seq<nat>, refColmv: seq<nat>, entries: seq<DpbEntry>,
    listP: seq<nat>, listB0: seq<nat>, listB1: seq<nat>)

  predicate OtherReference(d: Dpb, i: nat)
    requires i < |d.slots|
  {
    i != d.currentIdx && d.slots[i].Reference()
  }

  /** The references among the first `n` slots, keyed by FrameNumWrap. */
  function Collected(d: Dpb, n: nat): (r: seq<Keyed>)
    requires n <= |d.slots|
    ensures |r| <= n
  {
    if n == 0 then []
    else if OtherReference(d, n - 1) then Collected(d, n - 1) + [Keyed(Wrapped(d, n - 1), n - 1)]
    else Collected(d, n - 1)
  }

  lemma {:induction false} CollectedMembers(d: Dpb, n: nat)
    requires n <= |d.slots|
    ensures var r := Collected(d, n);
            && AscendingIds(r)
            && (forall e | e in r :: e.id < n && OtherReference(d, e.id) && e.key == Wrapped(d, e.id))
            && (forall i: nat | i < n && OtherReference(d, i) :: Keyed(Wrapped(d, i), i) in r)
  {
    hide OtherReference, Wrapped;
    if n > 0 { CollectedMembers(d, n - 1); }
  }

  function Ids(s: seq<Keyed>): (r: seq<nat>)
    ensures |r| == |s|
    ensures forall k | 0 <= k < |s| :: r[k] == s[k].id
  {
    seq(|s|, k requires 0 <= k < |s| => s[k].id)
  }

  /** The compact list: pool slots of the references in ascending FrameNumWrap. */
  function Compact(d: Dpb): seq<nat> {
    Ids(Sorted(Collected(d, |d.slots|)))
  }

  /** Holds each reference but the current picture once, in ascending FrameNumWrap, ties by slot. */
  predicate CompactOk(d: Dpb, c: seq<nat>) {
    && |c| <= |d.slots|
    && (forall k | 0 <= k < |c| ::
          c[k] < |d.slots| && c[k] != d.currentIdx && d.slots[c[k]].inUse && d.slots[c[k]].isRef)
    && (forall i: nat | i < |d.slots| && i != d.currentIdx && d.slots[i].inUse && d.slots[i].isRef :: i in c)
    && (forall j, k | 0 <= j < k < |c| ::
          Wrapped(d, c[j]) < Wrapped(d, c[k]) || (Wrapped(d, c[j]) == Wrapped(d, c[k]) && c[j] < c[k]))
  }

  lemma CompactIsReferences(d: Dpb)
    ensures CompactOk(d, Compact(d))
  {
    var all := Collected(d, |d.slots|);
    CollectedMembers(d, |d.slots|);
    SortedMembers(all);
    var s := Sorted(all);
    forall k | 0 <= k < |s|
      ensures s[k].id < |d.slots| && OtherReference(d, s[k].id) && s[k].key == Wrapped(d, s[k].id)
    {
      assert s[k] in all;
    }
    forall i: nat | i < |d.slots| && OtherReference(d, i) ensures i in Ids(s) {
      assert Keyed(Wrapped(d, i), i) in s;
    }
  }

  // ---------------------------------------------------------------- reference lists

  predicate IsPermutation(l: seq<nat>, n: nat) {
    && |l| == n
    && (forall k | 0 <= k < n :: l[k] < n)
    && (forall k: nat | k < n :: k in l)
    && (forall j, k | 0 <= j < k < n :: l[j] != l[k])
  }

  function Fnw(refs: seq<Slot>, curr: nat, max: nat, k: nat): int
    requires k < |refs|
  {
    FrameNumWrap(refs[k].frameNum, curr, max)
  }

  function FrameNumKeys(refs: seq<Slot>, curr: nat, max: nat): (r: seq<Keyed>)
    ensures AscendingIds(r) && |r| == |refs|
    ensures forall k | 0 <= k < |refs| :: r[k] == Keyed(-Fnw(refs, curr, max, k), k)
  {
    seq(|refs|, k requires 0 <= k < |refs| => Keyed(-Fnw(refs, curr, max, k), k))
  }

  /** `ref_lists[0]`: compact indices in descending FrameNumWrap. */
  function ListP(refs: seq<Slot>, curr: nat, max: nat): seq<nat> {
    Ids(Sorted(FrameNumKeys(refs, curr, max)))
  }

  predicate ListPOk(refs: seq<Slot>, curr: nat, max: nat, l: seq<nat>) {
    && IsPermutation(l, |refs|)
    && (forall j, k | 0 <= j < k < |refs| ::
          FrameNumWrap(refs[l[j]].frameNum, curr, max) >= FrameNumWrap(refs[l[k]].frameNum, curr, max))
  }

  lemma ListPIsDescending(refs: seq<Slot>, curr: nat, max: nat)
    ensures ListPOk(refs, curr, max, ListP(refs, curr, max))
  {
    var keys := FrameNumKeys(refs, curr, max);
    SortedMembers(keys);
    var s := Sorted(keys);
    forall k | 0 <= k < |s| ensures s[k].id < |refs| && s[k].key == -Fnw(refs, curr, max, s[k].id) {
      assert s[k] in keys;
    }
    forall k: nat | k < |refs| ensures k in Ids(s) {
      assert keys[k] in s;
    }
  }

  method BuildListP(refs: seq<Slot>, curr: nat, max: nat) returns (list: seq<nat>)
    ensures list == ListP(refs, curr, max)
  {
    var all := new Keyed[|refs|](_ => Keyed(0, 0));
    for i := 0 to |refs|
      invariant forall k | 0 <= k < i :: all[k] == FrameNumKeys(refs, curr, max)[k]
    {
      all[i] := Keyed(-FrameNumWrap(refs[i].frameNum, curr, max), i);
    }
    assert all[..|refs|] == FrameNumKeys(refs, curr, max);
    InsertionSort(all, |refs|);
    list := Ids(all[..|refs|]);
  }

  /** Frame POC: the smaller of the two field POCs. */
  function FramePoc(top: int, bottom: int): (r: int)
    ensures r <= top && r <= bottom && (r == top || r == bottom)
  {
    if bottom < top then bottom else top
  }

  function RefPoc(s: Slot): (r: int)
    ensures r <= s.topPoc && r <= s.bottomPoc && (r == s.topPoc || r == s.bottomPoc)
  {
    FramePoc(s.topPoc, s.bottomPoc)
  }

  /** A past picture has a field no later than the current one. */
  predicate OnSide(s: Slot, curPoc: int, past: bool)
    ensures OnSide(s, curPoc, past) <==> past == (s.topPoc <= curPoc || s.bottomPoc <= curPoc)
  {
    past == (RefPoc(s) <= curPoc)
  }

  function SideKey(s: Slot, past: bool): int {
    if past then -RefPoc(s) else RefPoc(s)
  }

  /** Compact indices below `n` on one side of the current POC, keyed for their list. */
  function Side(refs: seq<Slot>, curPoc: int, past: bool, n: nat): (r: seq<Keyed>)
    requires n <= |refs|
    ensures |r| <= n
  {
    if n == 0 then []
    else if OnSide(refs[n - 1], curPoc, past) then
      Side(refs, curPoc, past, n - 1) + [Keyed(SideKey(refs[n - 1], past), n - 1)]
    else
      Side(refs, curPoc, past, n - 1)
  }

  lemma {:induction false} SideMembers(refs: seq<Slot>, curPoc: int, past: bool, n: nat)
    requires n <= |refs|
    ensures var r := Side(refs, curPoc, past, n);
            && AscendingIds(r)
            && (forall e | e in r ::
                  e.id < n && OnSide(refs[e.id], curPoc, past) && e.key == SideKey(refs[e.id], past))
            && (forall k: nat | k < n && OnSide(refs[k], curPoc, past) :: Keyed(SideKey(refs[k], past), k) in r)
  {
    hide OnSide, SideKey;
    if n > 0 { SideMembers(refs, curPoc, past, n - 1); }
  }

  lemma {:induction false} SidesCover(refs: seq<Slot>, curPoc: int, n: nat)
    requires n <= |refs|
    ensures |Side(refs, curPoc, true, n)| + |Side(refs, curPoc, false, n)| == n
  {
    if n > 0 { SidesCover(refs, curPoc, n - 1); }
  }

  function SideList(refs: seq<Slot>, curPoc: int, past: bool): seq<nat> {
    Ids(Sorted(Side(refs, curPoc, past, |refs|)))
  }

  /** How far the picture's earlier field is from the current one. */
  function Away(s: Slot, curPoc: int): int {
    var poc := if s.topPoc <= s.bottomPoc then s.topPoc else s.bottomPoc;
    if poc < curPoc then curPoc - poc else poc - curPoc
  }

  /** One side of the current POC, nearest picture first. */
  predicate SideOk(refs: seq<Slot>, curPoc: int, past: bool, l: seq<nat>) {
    && (forall k | 0 <= k < |l| :: l[k] < |refs| && OnSide(refs[l[k]], curPoc, past))
    && (forall k: nat | k < |refs| && OnSide(refs[k], curPoc, past) :: k in l)
    && (forall j, k | 0 <= j < k < |l| :: l[j] != l[k])
    && (forall j, k | 0 <= j < k < |l| :: Away(refs[l[j]], curPoc) <= Away(refs[l[k]], curPoc))
  }

  lemma KeyIsAway(s: Slot, curPoc: int, past: bool)
    requires OnSide(s, curPoc, past)
    ensures SideKey(s, past) == if past then Away(s, curPoc) - curPoc else Away(s, curPoc) + curPoc
  {}

  lemma SideListOk(refs: seq<Slot>, curPoc: int, past: bool)
    ensures SideOk(refs, curPoc, past, SideList(refs, curPoc, past))
  {
    hide OnSide, SideKey, Away, Side, Sorted;
    var keys := Side(refs, curPoc, past, |refs|);
    SideMembers(refs, curPoc, past, |refs|);
    SortedMembers(keys);
    var s := Sorted(keys);
    forall k | 0 <= k < |s|
      ensures s[k].id < |refs| && OnSide(refs[s[k].id], curPoc, past) && s[k].key == SideKey(refs[s[k].id], past)
    {
      assert s[k] in keys;
    }
    forall k: nat | k < |refs| && OnSide(refs[k], curPoc, past) ensures k in Ids(s) {
      assert Keyed(SideKey(refs[k], past), k) in s;
    }
    forall j, k | 0 <= j < k < |s| ensures Away(refs[s[j].id], curPoc) <= Away(refs[s[k].id], curPoc) {
      KeyIsAway(refs[s[j].id], curPoc, past);
      KeyIsAway(refs[s[k].id], curPoc, past);
    }
  }

  lemma SideListLength(refs: seq<Slot>, curPoc: int, past: bool)
    ensures |SideList(refs, curPoc, past)| == |Side(refs, curPoc, past, |refs|)|
  {
    hide Side, Sorted;
    SideMembers(refs, curPoc, past, |refs|);
    SortedMembers(Side(refs, curPoc, past, |refs|));
  }

  lemma SidesPermute(refs: seq<Slot>, curPoc: int, first: seq<nat>, second: seq<nat>, past: bool)
    requires SideOk(refs, curPoc, past, first) && SideOk(refs, curPoc, !past, second)
    requires |first| + |second| == |refs|
    ensures IsPermutation(first + second, |refs|)
  {
    var l := first + second;
    forall k: nat | k < |refs| ensures k in l {
      if OnSide(refs[k], curPoc, past) { assert k in first; } else { assert k in second; }
    }
  }

  function SwapFirstTwo(l: seq<nat>): seq<nat>
    requires |l| > 1
  {
    [l[1], l[0]] + l[2..]
  }

  /** `ref_lists[1]` and `ref_lists[2]`. */
  function ListsB(refs: seq<Slot>, curPoc: int): (seq<nat>, seq<nat>) {
    var past, future := SideList(refs, curPoc, true), SideList(refs, curPoc, false);
    var b0, b1 := past + future, future + past;
    (b0, if |b1| > 1 && b0 == b1 then SwapFirstTwo(b1) else b1)
  }

  lemma SideStep(refs: seq<Slot>, curPoc: int, past: bool, i: nat)
    requires i < |refs|
    ensures Side(refs, curPoc, past, i + 1)
         == if past == (RefPoc(refs[i]) <= curPoc) then
              Side(refs, curPoc, past, i) + [Keyed(if past then -RefPoc(refs[i]) else RefPoc(refs[i]), i)]
            else Side(refs, curPoc, past, i)
  {}

  lemma NoSides(refs: seq<Slot>, curPoc: int)
    ensures Side(refs, curPoc, true, 0) == Side(refs, curPoc, false, 0) == []
  {}

  /** Puts each reference on its side of the current POC. */
  method SplitSides(refs: seq<Slot>, curPoc: int)
    returns (past: array<Keyed>, nPast: nat, future: array<Keyed>, nFuture: nat)
    ensures fresh(past) && fresh(future) && past != future
    ensures nPast <= past.Length && past[..nPast] == Side(refs, curPoc, true, |refs|)
    ensures nFuture <= future.Length && future[..nFuture] == Side(refs, curPoc, false, |refs|)
  {
    hide Side, RefPoc;
    past, nPast := new Keyed[|refs|](_ => Keyed(0, 0)), 0;
    future, nFuture := new Keyed[|refs|](_ => Keyed(0, 0)), 0;
    NoSides(refs, curPoc);
    for i := 0 to |refs|
      invariant nPast <= i && nFuture <= i
      invariant past[..nPast] == Side(refs, curPoc, true, i)
      invariant future[..nFuture] == Side(refs, curPoc, false, i)
    {
      SideStep(refs, curPoc, true, i);
      SideStep(refs, curPoc, false, i);
      var poc := RefPoc(refs[i]);
      if poc <= curPoc {
        past[nPast] := Keyed(-poc, i);
        nPast := nPast + 1;
      } else {
        future[nFuture] := Keyed(poc, i);
        nFuture := nFuture + 1;
      }
    }
  }

  method BuildListsB(refs: seq<Slot>, curPoc: int) returns (b0: seq<nat>, b1: seq<nat>)
    ensures (b0, b1) == ListsB(refs, curPoc)
  {
    hide Side, Sorted;
    var past, nPast, future, nFuture := SplitSides(refs, curPoc);
    InsertionSort(past, nPast);
    InsertionSort(future, nFuture);
    b0 := Ids(past[..nPast]) + Ids(future[..nFuture]);
    b1 := Ids(future[..nFuture]) + Ids(past[..nPast]);
    if |b1| > 1 && b0 == b1 { b1 := SwapFirstTwo(b1); }
  }

  /**
   The B lists: list 0 has the past pictures nearest first and then the future ones nearest first,
   list 1 the other way round with its first two entries swapped if that would be the same; both hold
   every compact index once, and they differ as soon as there are two references.
   */
  ghost predicate ListsBOk(refs: seq<Slot>, curPoc: int, b0: seq<nat>, b1: seq<nat>) {
    && IsPermutation(b0, |refs|) && IsPermutation(b1, |refs|)
    && (|refs| > 1 ==> b0 != b1)
    && exists n: nat | n <= |refs| ::
         && SideOk(refs, curPoc, true, b0[..n]) && SideOk(refs, curPoc, false, b0[n..])
         && (b1 == b0[n..] + b0[..n] || (|refs| > 1 && (n == 0 || n == |refs|) && b1 == SwapFirstTwo(b0)))
  }

  lemma ListsBSplitAndDiffer(refs: seq<Slot>, curPoc: int)
    ensures ListsBOk(refs, curPoc, ListsB(refs, curPoc).0, ListsB(refs, curPoc).1)
  {
    hide SideOk, IsPermutation, SideList;
    var past, future := SideList(refs, curPoc, true), SideList(refs, curPoc, false);
    SideListOk(refs, curPoc, true);
    SideListOk(refs, curPoc, false);
    SideListLength(refs, curPoc, true);
    SideListLength(refs, curPoc, false);
    SidesCover(refs, curPoc, |refs|);
    SidesPermute(refs, curPoc, past, future, true);
    SidesPermute(refs, curPoc, future, past, false);
    var b0 := past + future;
    assert b0[..|past|] == past && b0[|past|..] == future;
    if |refs| > 1 && past + future == future + past {
      SwapPermutes(b0, |refs|);
      SamePermutationOneSided(past, future, |refs|);
    }
  }

  lemma SwapPermutes(l: seq<nat>, n: nat)
    requires IsPermutation(l, n) && n > 1
    ensures IsPermutation(SwapFirstTwo(l), n) && SwapFirstTwo(l) != l
  {
    var s := SwapFirstTwo(l);
    assert s[0] == l[1] && s[1] == l[0] && forall k | 2 <= k < n :: s[k] == l[k];
    forall k: nat | k < n ensures k in s {
      assert k in l;
      var i :| 0 <= i < n && l[i] == k;
      assert s[if i == 0 then 1 else if i == 1 then 0 else i] == k;
    }
  }

  /** Two disjoint lists give the same list both ways round only if one of them is empty. */
  lemma SamePermutationOneSided(a: seq<nat>, b: seq<nat>, n: nat)
    requires IsPermutation(a + b, n)
    ensures a != [] && b != [] ==> a + b != b + a
  {
    if a != [] && b != [] {
      assert (a + b)[0] == a[0] && (b + a)[0] == b[0] && (a + b)[|a|] == b[0];
    }
  }

  // ---------------------------------------------------------------- the whole view

  predicate Selected(d: Dpb) {
    0 <= d.currentIdx < |d.slots| == |d.pool| <= MAX_SLOTS
  }

  function EntryOf(s: Slot): DpbEntry {
    var num := if s.longTerm then s.longTermFrameIdx else s.frameNum;
    Entry(s.longTerm, num, num, s.topPoc, s.bottomPoc)
  }

  /** The pool slot whose buffers go in position `k`: past the references, the last of them or the current one. */
  function BufferSlot(d: Dpb, c: seq<nat>, k: nat): nat
    requires Selected(d)
  {
    if k < |c| then c[k] else if c != [] then c[|c| - 1] else d.currentIdx
  }

  function Handles(d: Dpb, c: seq<nat>, colmv: bool): (r: seq<nat>)
    requires Selected(d) && forall k | 0 <= k < |c| :: c[k] < |d.slots|
    ensures |r| == MAX_SLOTS
  {
    seq(MAX_SLOTS, k requires 0 <= k < MAX_SLOTS =>
      if colmv then d.pool[BufferSlot(d, c, k)].colmv else d.pool[BufferSlot(d, c, k)].outputFrame)
  }

  function Entries(refs: seq<Slot>): (r: seq<DpbEntry>)
    ensures |r| == MAX_SLOTS
  {
    seq(MAX_SLOTS, k requires 0 <= k < MAX_SLOTS => if k < |refs| then EntryOf(refs[k]) else Unused)
  }

  function SlotsAt(d: Dpb, c: seq<nat>): (r: seq<Slot>)
    requires forall k | 0 <= k < |c| :: c[k] < |d.slots|
    ensures |r| == |c| && forall k | 0 <= k < |c| :: r[k] == d.slots[c[k]]
  {
    seq(|c|, k requires 0 <= k < |c| => d.slots[c[k]])
  }

  function View(d: Dpb, p: Parsed): Selection
    requires Selected(d)
  {
    CompactIsReferences(d);
    var c := Compact(d);
    var refs := SlotsAt(d, c);
    var (b0, b1) := ListsB(refs, FramePoc(p.topPoc, p.bottomPoc));
    var withB := !p.isIdr && p.sliceType != I && p.sliceType != SI;
    Selection(
      d.currentIdx, d.pool[d.currentIdx].outputFrame, d.pool[d.currentIdx].colmv,
      Handles(d, c, false), Handles(d, c, true), Entries(refs),
      if p.isIdr then [] else ListP(refs, d.currPicNum, WindowMax(d)),
      if withB then b0 else [],
      if withB then b1 else [])
  }

  /**
   Handle `k` is the buffer pair of entry `k`'s slot; past the entries the last one's pair repeats, or the current
   picture's if there is no entry. None is null.
   */
  predicate HandlesOk(d: Dpb, c: seq<nat>, refs: seq<nat>, colmv: seq<nat>)
    requires Selected(d) && |c| <= |d.slots| && forall k | 0 <= k < |c| :: c[k] < |d.slots|
  {
    && |refs| == |colmv| == MAX_SLOTS
    && (forall k | 0 <= k < MAX_SLOTS :: refs[k] != 0 && colmv[k] != 0 && PoolEntry(refs[k], colmv[k]) in d.pool)
    && (forall k | 0 <= k < |c| :: PoolEntry(refs[k], colmv[k]) == d.pool[c[k]])
    && (forall k | |c| <= k < MAX_SLOTS ::
          PoolEntry(refs[k], colmv[k]) == d.pool[if c != [] then c[|c| - 1] else d.currentIdx])
  }

  /**
   The view is right for every pool: entries are the references other than the current slot in
   ascending FrameNumWrap and nothing else, every handle is a buffer of the pool, and the lists that
   are filled in hold each entry once, in the order their kind asks for.
   */
  lemma ViewIsRight(d: Dpb, p: Parsed)
    requires Selected(d) && PoolOk(d.pool)
    ensures var v, c := View(d, p), Compact(d);
            && CompactOk(d, c)
            && v.entries == Entries(SlotsAt(d, c))
            && HandlesOk(d, c, v.refs, v.refColmv)
            && (!p.isIdr ==> ListPOk(SlotsAt(d, c), d.currPicNum, WindowMax(d), v.listP))
            && (!p.isIdr && p.sliceType != I && p.sliceType != SI ==>
                  ListsBOk(SlotsAt(d, c), FramePoc(p.topPoc, p.bottomPoc), v.listB0, v.listB1))
  {
    hide HandlesOk, ListPOk, ListsBOk, ListsB, ListP, Handles, Compact, Entries;
    CompactIsReferences(d);
    var v, c := View(d, p), Compact(d);
    ListPIsDescending(SlotsAt(d, c), d.currPicNum, WindowMax(d));
    ListsBSplitAndDiffer(SlotsAt(d, c), FramePoc(p.topPoc, p.bottomPoc));
    HandlesAreBuffers(d, c);
  }

  /**
   Entry `k` describes reference `k`, a long-term one by its index and a short-term one by its frame number, and the
   others are unused; the current picture's pair is that of its slot.
   */
  lemma EntriesDescribe(d: Dpb, p: Parsed)
    requires Selected(d)
    ensures var v, c := View(d, p), Compact(d);
            && CompactOk(d, c)
            && v.currentSlot == d.currentIdx && PoolEntry(v.currentOutput, v.currentColmv) == d.pool[d.currentIdx]
            && |v.entries| == MAX_SLOTS
            && forall k: nat | k < MAX_SLOTS ::
                 if k >= |c| then v.entries[k] == Unused
                 else
                   var s := d.slots[c[k]];
                   var num := if s.longTerm then s.longTermFrameIdx else s.frameNum;
                   v.entries[k] == Entry(s.longTerm, num, num, s.topPoc, s.bottomPoc)
  {
    hide Handles, ListsB, ListP, Compact, CompactOk;
    CompactIsReferences(d);
  }

  /** Nothing is handed out that the picture does not need: no list for an IDR picture, B lists for P and B slices. */
  lemma ListsAreNeeded(d: Dpb, p: Parsed)
    requires Selected(d)
    ensures var v := View(d, p);
            && (p.isIdr ==> v.listP == [])
            && (p.isIdr || p.sliceType == I || p.sliceType == SI ==> v.listB0 == v.listB1 == [])
  {
    hide Handles, ListsB, ListP, Compact, CompactOk, Entries;
    CompactIsReferences(d);
  }

  lemma HandlesAreBuffers(d: Dpb, c: seq<nat>)
    requires Selected(d) && PoolOk(d.pool) && |c| <= |d.slots| && forall k | 0 <= k < |c| :: c[k] < |d.slots|
    ensures HandlesOk(d, c, Handles(d, c, false), Handles(d, c, true))
  {
    var a, b := Handles(d, c, false), Handles(d, c, true);
    forall k | 0 <= k < MAX_SLOTS ensures PoolEntry(a[k], b[k]) == d.pool[BufferSlot(d, c, k)] {}
    forall k | 0 <= k < MAX_SLOTS ensures a[k] != 0 && b[k] != 0 && PoolEntry(a[k], b[k]) in d.pool {
      assert d.pool[BufferSlot(d, c, k)] == PoolEntry(a[k], b[k]);
    }
  }
}
