/** In-place sorting of tables of self-relative words (scripts/sorttable.c).

    A table is an array of bytes read as 32-bit words in either byte order. Entries are
    two words (`sort_relative_table`) or three (`sort_relative_table_with_data`); the first
    two words of an entry are offsets from their own position, the third is plain data.
 */
module ExTable {
  import Arith
  import opened Bits
  import Collections

  // ----- words in memory

  function WordAt(b: seq<u8>, k: nat, be: bool): u32
    requires 4 * k + 4 <= |b|
  {
    Decode(b[4 * k..4 * k + 4], be)
  }

  /** The table as a sequence of words. */
  function Words(b: seq<u8>, be: bool): seq<u32> {
    seq(|b| / 4, k requires 0 <= k < |b| / 4 => WordAt(b, k, be))
  }

  /** `r(loc)` */
  method ReadWord(a: array<u8>, k: nat, be: bool) returns (v: u32)
    requires 4 * k + 4 <= a.Length
    ensures v == Words(a[..], be)[k]
  {
    v := Decode(a[4 * k..4 * k + 4], be);
    assert a[..][4 * k..4 * k + 4] == a[4 * k..4 * k + 4];
  }

  /** `w(v, loc)` */
  method WriteWord(a: array<u8>, k: nat, v: u32, be: bool)
    requires 4 * k + 4 <= a.Length && a.Length % 4 == 0
    modifies a
    ensures Words(a[..], be) == old(Words(a[..], be))[k := v]
  {
    var b := Encode(v, be);
    ghost var before := a[..];
    a[4 * k], a[4 * k + 1], a[4 * k + 2], a[4 * k + 3] := b[0], b[1], b[2], b[3];
    OneWordStored(before, a[..], k, b, be);
  }

  lemma OneWordStored(before: seq<u8>, after: seq<u8>, k: nat, b: seq<u8>, be: bool)
    requires |before| == |after| && |before| % 4 == 0 && 4 * k + 4 <= |before| && |b| == 4
    requires forall i :: 0 <= i < |after| ==> after[i] == if 4 * k <= i < 4 * k + 4 then b[i - 4 * k] else before[i]
    ensures Words(after, be) == Words(before, be)[k := Decode(b, be)]
  {
    forall j | 0 <= j < |after| / 4
      ensures WordAt(after, j, be) == if j == k then Decode(b, be) else WordAt(before, j, be)
    {
      assert after[4 * j..4 * j + 4] == if j == k then b else before[4 * j..4 * j + 4];
    }
  }

  // ----- what the words mean

  /** Is word k of a table with n words per entry relative to its own position? */
  predicate IsRelative(k: nat, n: nat) { n != 3 || k % 3 != 2 }

  /** Every relative word turned into the offset from the start of the table it stands for. */
  function Absolute(ws: seq<u32>, n: nat): seq<u32> {
    seq(|ws|, k requires 0 <= k < |ws| => if IsRelative(k, n) then U32(ws[k] + 4 * k) else ws[k])
  }

  function Relative(ws: seq<u32>, n: nat): seq<u32> {
    seq(|ws|, k requires 0 <= k < |ws| => if IsRelative(k, n) then U32(ws[k] - 4 * k) else ws[k])
  }

  lemma AbsoluteOfRelative(ws: seq<u32>, n: nat)
    ensures Absolute(Relative(ws, n), n) == ws
  {
    forall k | 0 <= k < |ws|
      ensures Absolute(Relative(ws, n), n)[k] == ws[k]
    {
      AddBack(ws[k], 4 * k);
    }
  }

  lemma AddBack(w: u32, i: nat)
    ensures U32(U32(w - i) + i) == w
  {}

  /** The table cut into entries of n words. */
  function Entries(ws: seq<u32>, n: nat): (es: seq<seq<u32>>)
    requires n > 0
    ensures forall e :: e in es ==> |e| == n
  {
    if |ws| < n then [] else [ws[..n]] + Entries(ws[n..], n)
  }

  /** What a lookup sees: the entries with their words made absolute. */
  function Meaning(b: seq<u8>, n: nat, be: bool): (es: seq<seq<u32>>)
    requires n > 0
    ensures forall e :: e in es ==> |e| == n
  {
    Entries(Absolute(Words(b, be), n), n)
  }

  /** The first word as `int32_t`. */
  function SignedKey(e: seq<u32>): int { if e == [] then 0 else S32(e[0]) }

  /** `compare_relative_table` */
  function CompareRelative(a: seq<u32>, b: seq<u32>): int {
    if SignedKey(a) < SignedKey(b) then -1 else if SignedKey(a) > SignedKey(b) then 1 else 0
  }

  /** The entries are in the order of their signed first word. */
  ghost predicate Ordered(es: seq<seq<u32>>) {
    forall i, j :: 0 <= i < j < |es| && es[i] != [] && es[j] != [] ==> S32(es[i][0]) <= S32(es[j][0])
  }

  lemma {:induction false} EntryAt(ws: seq<u32>, n: nat, j: nat)
    requires n > 0 && n * j + n <= |ws|
    ensures j < |Entries(ws, n)| && Entries(ws, n)[j] == ws[n * j..n * j + n]
  {
    if j > 0 {
      Arith.MulMono(1, j, n);
      assert n * (j - 1) == n * j - n;
      EntryAt(ws[n..], n, j - 1);
      assert ws[n..][n * (j - 1)..n * (j - 1) + n] == ws[n * j..n * j + n];
    }
  }

  /** What word k of the table means. */
  lemma WordMeaning(b: seq<u8>, be: bool, n: nat, k: nat)
    requires 4 * k + 4 <= |b|
    ensures |Absolute(Words(b, be), n)| == |b| / 4 > k
    ensures Absolute(Words(b, be), n)[k] == if IsRelative(k, n) then U32(WordAt(b, k, be) + 4 * k) else WordAt(b, k, be)
  {}

  /** Entry j of a table of pairs means the two addresses its words stand for. */
  lemma PairMeaning(b: seq<u8>, be: bool, j: nat)
    requires 8 * j + 8 <= |b|
    ensures j < |Meaning(b, 2, be)|
    ensures Meaning(b, 2, be)[j] == [U32(WordAt(b, 2 * j, be) + 8 * j), U32(WordAt(b, 2 * j + 1, be) + 8 * j + 4)]
  {
    var ws := Absolute(Words(b, be), 2);
    WordMeaning(b, be, 2, 2 * j);
    WordMeaning(b, be, 2, 2 * j + 1);
    PairAt(ws, j);
  }

  lemma PairAt(ws: seq<u32>, j: nat)
    requires 2 * j + 2 <= |ws|
    ensures j < |Entries(ws, 2)| && Entries(ws, 2)[j] == [ws[2 * j], ws[2 * j + 1]]
  {
    EntryAt(ws, 2, j);
    assert ws[2 * j..2 * j + 2] == [ws[2 * j], ws[2 * j + 1]];
  }

  /** With data, the third word means itself. */
  lemma TripleMeaning(b: seq<u8>, be: bool, j: nat)
    requires 12 * j + 12 <= |b|
    ensures j < |Meaning(b, 3, be)|
    ensures Meaning(b, 3, be)[j] ==
      [U32(WordAt(b, 3 * j, be) + 12 * j), U32(WordAt(b, 3 * j + 1, be) + 12 * j + 4), WordAt(b, 3 * j + 2, be)]
  {
    var ws := Absolute(Words(b, be), 3);
    WordMeaning(b, be, 3, 3 * j);
    WordMeaning(b, be, 3, 3 * j + 1);
    WordMeaning(b, be, 3, 3 * j + 2);
    ThirdWord(j);
    TripleAt(ws, j);
  }

  lemma TripleAt(ws: seq<u32>, j: nat)
    requires 3 * j + 3 <= |ws|
    ensures j < |Entries(ws, 3)| && Entries(ws, 3)[j] == [ws[3 * j], ws[3 * j + 1], ws[3 * j + 2]]
  {
    EntryAt(ws, 3, j);
    assert ws[3 * j..3 * j + 3] == [ws[3 * j], ws[3 * j + 1], ws[3 * j + 2]];
  }

  lemma ThirdWord(j: nat)
    ensures IsRelative(3 * j, 3) && IsRelative(3 * j + 1, 3) && !IsRelative(3 * j + 2, 3)
  {}

  // ----- qsort

  function Flatten(es: seq<seq<u32>>): seq<u32> {
    if es == [] then [] else es[0] + Flatten(es[1..])
  }

  lemma {:induction false} EntriesOfFlatten(es: seq<seq<u32>>, n: nat)
    requires n > 0 && forall e :: e in es ==> |e| == n
    ensures Entries(Flatten(es), n) == es
  {
    if es != [] {
      var f := Flatten(es);
      assert f[..n] == es[0] && f[n..] == Flatten(es[1..]);
      EntriesOfFlatten(es[1..], n);
    }
  }

  lemma {:induction false} FlattenOfEntries(ws: seq<u32>, n: nat)
    requires (n == 2 || n == 3) && |ws| % n == 0
    ensures Flatten(Entries(ws, n)) == ws
  {
    if |ws| >= n {
      FlattenOfEntries(ws[n..], n);
      var es := Entries(ws, n);
      assert es[1..] == Entries(ws[n..], n);
    }
  }

  lemma {:induction false} FlattenLength(es: seq<seq<u32>>, fs: seq<seq<u32>>, n: nat)
    requires |es| == |fs| && (forall e :: e in es ==> |e| == n) && (forall e :: e in fs ==> |e| == n)
    ensures |Flatten(es)| == |Flatten(fs)|
  {
    if es != [] { FlattenLength(es[1..], fs[1..], n); }
  }

  method WriteWords(a: array<u8>, ws: seq<u32>, be: bool)
    requires a.Length % 4 == 0 && 4 * |ws| == a.Length
    modifies a
    ensures Words(a[..], be) == ws
  {
    ghost var before, now := Words(a[..], be), Words(a[..], be);
    var k := 0;
    while k < |ws|
      invariant 0 <= k <= |ws| && |now| == |ws|
      invariant now == Words(a[..], be)
      invariant now[..k] == ws[..k]
    {
      WriteWord(a, k, ws[k], be);
      now := now[k := ws[k]];
      k := k + 1;
    }
  }

  /** The contract of qsort(3) on a table of n-word entries with compare_relative_table:
      the entries are permuted and come out in order. */
  method QSort(a: array<u8>, n: nat, be: bool)
    requires (n == 2 || n == 3) && a.Length % 4 == 0 && a.Length / 4 % n == 0
    modifies a
    ensures multiset(Entries(Words(a[..], be), n)) == old(multiset(Entries(Words(a[..], be), n)))
    ensures Ordered(Entries(Words(a[..], be), n))
  {
    var ws := Words(a[..], be);
    var sorted := Flatten(Collections.Sort(CompareRelative, Entries(ws, n)));
    SortedEntries(ws, n);
    WriteWords(a, sorted, be);
  }

  lemma SortedEntries(ws: seq<u32>, n: nat)
    requires (n == 2 || n == 3) && |ws| % n == 0
    ensures var sorted := Flatten(Collections.Sort(CompareRelative, Entries(ws, n)));
      && |sorted| == |ws|
      && multiset(Entries(sorted, n)) == multiset(Entries(ws, n))
      && Ordered(Entries(sorted, n))
  {
    var es := Entries(ws, n);
    var sorted := Collections.Sort(CompareRelative, es);
    Collections.SortSorted(CompareRelative, SignedKey, es);
    SameLengths(es, sorted, n);
    FlattenOfEntries(ws, n);
    FlattenLength(sorted, es, n);
    EntriesOfFlatten(sorted, n);
  }

  lemma SameLengths(es: seq<seq<u32>>, fs: seq<seq<u32>>, n: nat)
    requires multiset(es) == multiset(fs) && forall e :: e in es ==> |e| == n
    ensures |es| == |fs| && forall e :: e in fs ==> |e| == n
  {
    assert |multiset(es)| == |es| && |multiset(fs)| == |fs|;
    forall e | e in fs
      ensures |e| == n
    {
      assert e in multiset(fs);
      assert e in multiset(es);
    }
  }

  // ----- the two sorts

  /** The words of the table when those before k have been converted and the rest not. */
  ghost predicate Between(now: seq<u32>, before: seq<u32>, after: seq<u32>, k: nat) {
    && |now| == |before| == |after|
    && forall j :: 0 <= j < |now| ==> now[j] == if j < k then after[j] else before[j]
  }

  /** `w(r(loc) + delta, loc)` */
  method Shift(a: array<u8>, k: nat, delta: int, be: bool)
    requires 4 * k + 4 <= a.Length && a.Length % 4 == 0
    modifies a
    ensures Words(a[..], be) == old(Words(a[..], be))[k := U32(old(Words(a[..], be)[k]) + delta)]
  {
    var v := ReadWord(a, k, be);
    WriteWord(a, k, U32(v + delta), be);
  }

  lemma BetweenStep(now: seq<u32>, before: seq<u32>, after: seq<u32>, k: nat)
    requires Between(now, before, after, k) && k < |now|
    ensures Between(now[k := after[k]], before, after, k + 1)
  {}

  lemma BetweenSkip(now: seq<u32>, before: seq<u32>, after: seq<u32>, k: nat)
    requires Between(now, before, after, k) && k < |now| && after[k] == before[k]
    ensures Between(now, before, after, k + 1)
  {}

  /** The first loop of `sort_relative_table`. */
  method Normalise(a: array<u8>, be: bool)
    requires a.Length % 4 == 0
    modifies a
    ensures Words(a[..], be) == Absolute(old(Words(a[..], be)), 2)
  {
    ghost var before, now := Words(a[..], be), Words(a[..], be);
    ghost var after := Absolute(before, 2);
    var i, k := 0, 0;
    while i < a.Length
      invariant i == 4 * k <= a.Length == 4 * |now|
      invariant now == Words(a[..], be) && Between(now, before, after, k)
    {
      Shift(a, k, i, be);
      BetweenStep(now, before, after, k);
      now := now[k := after[k]];
      i, k := i + 4, k + 1;
    }
    assert now == after;
  }

  /** The last loop of `sort_relative_table`. */
  method Denormalise(a: array<u8>, be: bool)
    requires a.Length % 4 == 0
    modifies a
    ensures Words(a[..], be) == Relative(old(Words(a[..], be)), 2)
  {
    ghost var before, now := Words(a[..], be), Words(a[..], be);
    ghost var after := Relative(before, 2);
    var i, k := 0, 0;
    while i < a.Length
      invariant i == 4 * k <= a.Length == 4 * |now|
      invariant now == Words(a[..], be) && Between(now, before, after, k)
    {
      Shift(a, k, -i, be);
      BetweenStep(now, before, after, k);
      now := now[k := after[k]];
      i, k := i + 4, k + 1;
    }
    assert now == after;
  }

  /** `sort_relative_table`: the multiset of meanings is kept, and the entries come out in
      the order of their signed absolute first word. */
  method SortRelativeTable(a: array<u8>, be: bool)
    requires a.Length % 8 == 0
    modifies a
    ensures multiset(Meaning(a[..], 2, be)) == old(multiset(Meaning(a[..], 2, be)))
    ensures Ordered(Meaning(a[..], 2, be))
  {
    Normalise(a, be);
    QSort(a, 2, be);
    AbsoluteOfRelative(Words(a[..], be), 2);
    Denormalise(a, be);
  }

  /** One entry converted: its first two words shifted, its data skipped. */
  method ShiftEntry(a: array<u8>, k: nat, d0: int, d1: int, be: bool,
                    ghost before: seq<u32>, ghost after: seq<u32>)
    requires a.Length % 4 == 0 && 4 * k + 12 <= a.Length
    requires Between(Words(a[..], be), before, after, k)
    requires U32(before[k] + d0) == after[k] && U32(before[k + 1] + d1) == after[k + 1]
    requires before[k + 2] == after[k + 2]
    modifies a
    ensures Between(Words(a[..], be), before, after, k + 3)
  {
    ghost var now := Words(a[..], be);
    Shift(a, k, d0, be);
    BetweenStep(now, before, after, k);
    now := now[k := after[k]];
    Shift(a, k + 1, d1, be);
    BetweenStep(now, before, after, k + 1);
    now := now[k + 1 := after[k + 1]];
    BetweenSkip(now, before, after, k + 2);
  }

  /** Entry j of `after` is entry j of `before` with its two offsets shifted by their
      position, up or down, and its data unchanged. */
  ghost predicate Converted(before: seq<u32>, after: seq<u32>, j: nat, down: bool)
    requires 3 * j + 3 <= |before| == |after|
  {
    var k, i := 3 * j, 12 * j;
    && after[k] == U32(before[k] + (if down then -i else i))
    && after[k + 1] == U32(before[k + 1] + (if down then -(i + 4) else i + 4))
    && after[k + 2] == before[k + 2]
  }

  /** Both loops of `sort_relative_table_with_data`: up normalises, down denormalises. */
  method ConvertEntries(a: array<u8>, down: bool, be: bool, ghost after: seq<u32>)
    requires a.Length % 12 == 0
    requires |after| == |Words(a[..], be)|
    requires forall j :: 0 <= j < a.Length / 12 ==> Converted(Words(a[..], be), after, j, down)
    modifies a
    ensures Words(a[..], be) == after
  {
    ghost var before, now := Words(a[..], be), Words(a[..], be);
    ghost var m := a.Length / 12;
    var i, j := 0, 0;
    while i < a.Length
      invariant i == 12 * j && 0 <= j <= m && a.Length == 12 * m && |before| == 3 * m
      invariant now == Words(a[..], be) && Between(now, before, after, 3 * j)
    {
      assert Converted(before, after, j, down);
      var d0, d1 := if down then -i else i, if down then -(i + 4) else i + 4;
      ShiftEntry(a, 3 * j, d0, d1, be, before, after);
      now := Words(a[..], be);
      i, j := i + 12, j + 1;
    }
    assert now == after;
  }

  lemma EntryConverted(ws: seq<u32>, j: nat)
    requires 3 * j + 3 <= |ws|
    ensures Converted(ws, Absolute(ws, 3), j, false) && Converted(ws, Relative(ws, 3), j, true)
  {
    assert 3 * j % 3 == 0 && (3 * j + 1) % 3 == 1 && (3 * j + 2) % 3 == 2;
  }

  /** The first loop of `sort_relative_table_with_data`. */
  method NormaliseEntries(a: array<u8>, be: bool)
    requires a.Length % 12 == 0
    modifies a
    ensures Words(a[..], be) == Absolute(old(Words(a[..], be)), 3)
  {
    ghost var before := Words(a[..], be);
    forall j | 0 <= j < a.Length / 12 { EntryConverted(before, j); }
    ConvertEntries(a, false, be, Absolute(before, 3));
  }

  /** Its last loop. */
  method DenormaliseEntries(a: array<u8>, be: bool)
    requires a.Length % 12 == 0
    modifies a
    ensures Words(a[..], be) == Relative(old(Words(a[..], be)), 3)
  {
    ghost var before := Words(a[..], be);
    forall j | 0 <= j < a.Length / 12 { EntryConverted(before, j); }
    ConvertEntries(a, true, be, Relative(before, 3));
  }

  /** `sort_relative_table_with_data`: the same, and the data word travels untouched with
      its entry. */
  method SortRelativeTableWithData(a: array<u8>, be: bool)
    requires a.Length % 12 == 0
    modifies a
    ensures multiset(Meaning(a[..], 3, be)) == old(multiset(Meaning(a[..], 3, be)))
    ensures Ordered(Meaning(a[..], 3, be))
  {
    NormaliseEntries(a, be);
    QSort(a, 3, be);
    AbsoluteOfRelative(Words(a[..], be), 3);
    DenormaliseEntries(a, be);
  }
}
