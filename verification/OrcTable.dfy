/** Sorting the two ORC unwind tables by one common permutation (scripts/sorttable.h).

    `ip[i]` is a signed 32-bit offset from its own address, `base + 4 * i`, to the code
    address it describes; `orc[i]` is the unwind record of that address.
 */
module OrcTable {
  import opened Bits
  import Collections

  type s32 = x: int | -0x8000_0000 <= x < 0x8000_0000

  /** `struct orc_entry` */
  datatype OrcEntry = OrcEntry(spOffset: int, bpOffset: int, spReg: nat, bpReg: nat, kind: nat, signal: bool)

  const ORC_TYPE_UNDEFINED := 0

  /** The tables as they are while qsort runs. */
  datatype Tables = Tables(base: u64, ip: seq<s32>, orc: seq<OrcEntry>)

  predicate Matching(t: Tables) { |t.ip| == |t.orc| }

  /** Conversion to `int`. */
  function ToInt(x: int): s32 { S32(U32(x)) }

  /** `orc_ip`: the absolute address of entry i. */
  function OrcIp(t: Tables, i: nat): u64
    requires i < |t.ip|
  {
    U64(t.base + 4 * i + t.ip[i])
  }

  predicate IsTerminator(t: Tables, i: nat)
    requires i < |t.orc|
  {
    t.orc[i].kind == ORC_TYPE_UNDEFINED
  }

  /** `orc_sort_cmp`, on indices. On a tie it looks at its first argument only. */
  function OrcSortCmp(t: Tables, a: nat, b: nat): int
    requires Matching(t) && a < |t.ip| && b < |t.ip|
  {
    if OrcIp(t, a) > OrcIp(t, b) then 1
    else if OrcIp(t, a) < OrcIp(t, b) then -1
    else if IsTerminator(t, a) then -1
    else 1
  }

  // ----- the order the comparator is after

  /** By address, and on a tie terminators first. */
  predicate Before(t: Tables, a: nat, b: nat)
    requires Matching(t) && a < |t.ip| && b < |t.ip|
  {
    OrcIp(t, a) < OrcIp(t, b)
    || (OrcIp(t, a) == OrcIp(t, b) && (IsTerminator(t, a) || !IsTerminator(t, b)))
  }

  predicate Indices(t: Tables, s: seq<nat>) { forall i :: 0 <= i < |s| ==> s[i] < |t.ip| }

  predicate InOrder(t: Tables, s: seq<nat>)
    requires Matching(t) && Indices(t, s)
  {
    forall i, j :: 0 <= i < j < |s| ==> Before(t, s[i], s[j])
  }

  /** The comparator contradicts itself on ties between two real entries, and between two
      terminators, but wherever it is consistent it agrees with `Before`. */
  lemma ComparatorConsistency(t: Tables, a: nat, b: nat)
    requires Matching(t) && a < |t.ip| && b < |t.ip|
    ensures OrcSortCmp(t, a, b) > 0 ==> Before(t, b, a)
    ensures OrcSortCmp(t, a, b) < 0 ==> Before(t, a, b)
    ensures (OrcSortCmp(t, a, b) > 0 <==> OrcSortCmp(t, b, a) > 0)
       <==> OrcIp(t, a) == OrcIp(t, b) && IsTerminator(t, a) == IsTerminator(t, b)
  {}

  /** The same order as numbers; 0 outside the table, where qsort never looks. */
  function Key(t: Tables, a: nat): int
    requires Matching(t)
  {
    if a < |t.ip| then 2 * OrcIp(t, a) + (if IsTerminator(t, a) then 0 else 1) else 0
  }

  function Compare(t: Tables, a: nat, b: nat): int
    requires Matching(t)
  {
    if a < |t.ip| && b < |t.ip| then OrcSortCmp(t, a, b) else Key(t, a) - Key(t, b)
  }

  lemma KeyIsOrder(t: Tables, a: nat, b: nat)
    requires Matching(t)
    ensures (Compare(t, a, b) > 0 ==> Key(t, b) <= Key(t, a)) && (Compare(t, a, b) <= 0 ==> Key(t, a) <= Key(t, b))
    ensures a < |t.ip| && b < |t.ip| ==> (Before(t, a, b) <==> Key(t, a) <= Key(t, b))
  {}

  /** Sorting indices with the comparator. */
  function Sort(t: Tables, s: seq<nat>): seq<nat>
    requires Matching(t)
  {
    Collections.Sort((a: nat, b: nat) => Compare(t, a, b), s)
  }

  lemma SortInOrder(t: Tables, s: seq<nat>)
    requires Matching(t) && Indices(t, s)
    ensures multiset(Sort(t, s)) == multiset(s) && Indices(t, Sort(t, s)) && InOrder(t, Sort(t, s))
  {
    var cmp, key := (a: nat, b: nat) => Compare(t, a, b), (a: nat) => Key(t, a);
    forall a: nat, b: nat { KeyIsOrder(t, a, b); }
    Collections.SortSorted(cmp, key, s);
    var r := Sort(t, s);
    assert r == Collections.Sort(cmp, s);
    forall i | 0 <= i < |r|
      ensures r[i] < |t.ip|
    {
      assert r[i] in multiset(r);
      assert r[i] in multiset(s);
    }
    forall i, j | 0 <= i < j < |r|
      ensures Before(t, r[i], r[j])
    {
      assert key(r[i]) <= key(r[j]);
      KeyIsOrder(t, r[i], r[j]);
    }
  }

  /** The contract of qsort(3) used here: the indices are permuted, and no pair that the
      comparator orders consistently comes out the wrong way round. */
  method QSort(t: Tables, idxs: seq<nat>) returns (sorted: seq<nat>)
    requires Matching(t) && Indices(t, idxs)
    ensures multiset(sorted) == multiset(idxs) && Indices(t, sorted) && InOrder(t, sorted)
  {
    SortInOrder(t, idxs);
    sorted := Sort(t, idxs);
  }

  // ----- moving the entries

  /** Entry p moved to place i still points to the same 64-bit address when its offset from
      the new place fits an `int`. */
  predicate OffsetFits(t: Tables, p: nat, i: nat)
    requires p < |t.ip|
  {
    -0x8000_0000 <= t.ip[p] + 4 * p - 4 * i < 0x8000_0000
  }

  /** `tmp_orc_ip_table[p] - i * sizeof(int)`, where tmp holds `ip[p] + p * sizeof(int)`. */
  function MovedIp(t: Tables, p: nat, i: nat): s32
    requires p < |t.ip|
  {
    ToInt(ToInt(t.ip[p] + 4 * p) - 4 * i)
  }

  lemma MovedIpValue(t: Tables, p: nat, i: nat)
    requires p < |t.ip|
    ensures U32(MovedIp(t, p, i) + 4 * i) == U32(t.ip[p] + 4 * p)
    ensures MovedIp(t, p, i) == t.ip[p] + 4 * p - 4 * i <==> OffsetFits(t, p, i)
    ensures p == i ==> MovedIp(t, p, i) == t.ip[p]
  {
    Truncation(t.ip[p] + 4 * p, 4 * i);
  }

  lemma Truncation(x: int, y: int)
    ensures U32(ToInt(ToInt(x) - y) + y) == U32(x)
    ensures ToInt(ToInt(x) - y) == x - y <==> -0x8000_0000 <= x - y < 0x8000_0000
  {
    ToIntMod(x);
    ToIntMod(ToInt(x) - y);
    SameLowWord(y, ToInt(ToInt(x) - y), ToInt(x) - y);
    SameLowWord(-y, ToInt(x), x);
    ToIntOnly(ToInt(x) - y, x - y);
  }

  /** The truncated value depends on the low word only. */
  lemma ToIntOnly(x: int, y: int)
    requires U32(x) == U32(y)
    ensures ToInt(x) == y <==> -0x8000_0000 <= y < 0x8000_0000
  {
    ToIntMod(y);
  }

  lemma ToIntMod(x: int)
    ensures U32(ToInt(x)) == U32(x)
    ensures ToInt(x) == x <==> -0x8000_0000 <= x < 0x8000_0000
  {}

  /** perm rearranges 0 .. n - 1. */
  ghost predicate IsPermutation(perm: seq<nat>, n: nat) {
    |perm| == n && Collections.Distinct(perm) && forall i :: 0 <= i < n ==> perm[i] < n
  }

  lemma {:induction false} IdentityCounts(n: nat, x: nat)
    ensures multiset(Collections.UpTo(n))[x] == if x < n then 1 else 0
  {
    if n > 0 {
      IdentityCounts(n - 1, x);
      assert Collections.UpTo(n) == Collections.UpTo(n - 1) + [n - 1];
    }
  }

  /** What qsort is handed, it returns in some order. */
  lemma PermutesIdentity(perm: seq<nat>, n: nat)
    requires multiset(perm) == multiset(Collections.UpTo(n))
    ensures IsPermutation(perm, n)
  {
    assert |multiset(perm)| == n;
    forall i | 0 <= i < n
      ensures perm[i] < n
    {
      assert perm[i] in multiset(perm);
      IdentityCounts(n, perm[i]);
    }
    forall i, j | 0 <= i < j < n
      ensures perm[i] != perm[j]
    {
      IdentityCounts(n, perm[i]);
      assert perm == perm[..j] + [perm[j]] + perm[j + 1..];
      assert perm[..j][i] in multiset(perm[..j]);
    }
  }

  /** What `sort_orctable` does to the two tables: one permutation moves both. */
  ghost predicate Rearranged(t: Tables, t': Tables, perm: seq<nat>)
    requires Matching(t) && Indices(t, perm) && |perm| == |t.ip|
  {
    && t'.base == t.base && |t'.ip| == |t'.orc| == |perm|
    && forall i :: 0 <= i < |perm| ==> t'.ip[i] == MovedIp(t, perm[i], i) && t'.orc[i] == t.orc[perm[i]]
  }

  /** `sort_orctable` */
  method SortOrcTable(base: u64, ip: array<s32>, orc: array<OrcEntry>) returns (ghost perm: seq<nat>)
    requires ip.Length == orc.Length
    modifies ip, orc
    ensures var t := Tables(base, old(ip[..]), old(orc[..]));
      && Outcome(t, Tables(base, ip[..], orc[..]), perm)
      && (NoWrap(base, ip.Length) ==>
            KeepsAddresses(t, Tables(base, ip[..], orc[..]), perm) && SortedTable(Tables(base, ip[..], orc[..])))
  {
    ghost var t := Tables(base, ip[..], orc[..]);
    var tmpOrc := orc[..];
    var idxs, tmpIp := Order(base, ip, orc);
    perm := idxs;
    ghost var moved := MovedOffsets(t, idxs, tmpIp);
    MoveEntries(moved, ip, orc, idxs, tmpIp, tmpOrc);
    if NoWrap(base, ip.Length) { AddressesKept(t, Tables(base, ip[..], orc[..]), perm); }
  }

  /** The first loop and the call of qsort. */
  method Order(base: u64, ip: array<s32>, orc: array<OrcEntry>) returns (idxs: seq<nat>, tmpIp: seq<s32>)
    requires ip.Length == orc.Length
    ensures var t := Tables(base, ip[..], orc[..]);
      IsPermutation(idxs, ip.Length) && Indices(t, idxs) && InOrder(t, idxs) && Normalised(t, tmpIp)
  {
    idxs, tmpIp := Prepare(ip);
    idxs := QSort(Tables(base, ip[..], orc[..]), idxs);
    PermutesIdentity(idxs, ip.Length);
  }

  predicate Normalised(t: Tables, tmpIp: seq<s32>) {
    |tmpIp| == |t.ip| && forall k :: 0 <= k < |t.ip| ==> tmpIp[k] == ToInt(t.ip[k] + 4 * k)
  }

  lemma MovedOffsets(t: Tables, perm: seq<nat>, tmpIp: seq<s32>) returns (moved: seq<s32>)
    requires Indices(t, perm) && |perm| == |t.ip| && Normalised(t, tmpIp)
    ensures |moved| == |perm|
    ensures forall k :: 0 <= k < |perm| ==>
      && moved[k] == MovedIp(t, perm[k], k) == ToInt(tmpIp[perm[k]] - 4 * k)
      && (perm[k] == k ==> moved[k] == t.ip[k])
  {
    moved := seq(|perm|, k requires 0 <= k < |perm| => MovedIp(t, perm[k], k));
    forall k | 0 <= k < |perm|
      ensures perm[k] == k ==> moved[k] == t.ip[k]
    {
      MovedIpValue(t, perm[k], k);
    }
  }

  /** The first loop: the identity index, and the offsets made relative to the table start. */
  method Prepare(ip: array<s32>) returns (idxs: seq<nat>, tmpIp: seq<s32>)
    ensures idxs == Collections.UpTo(ip.Length)
    ensures |tmpIp| == ip.Length && forall k :: 0 <= k < ip.Length ==> tmpIp[k] == ToInt(ip[k] + 4 * k)
  {
    idxs, tmpIp := [], [];
    var i := 0;
    while i < ip.Length
      invariant 0 <= i <= ip.Length
      invariant idxs == Collections.UpTo(i)
      invariant |tmpIp| == i && forall k :: 0 <= k < i ==> tmpIp[k] == ToInt(ip[k] + 4 * k)
    {
      idxs := idxs + [i];
      tmpIp := tmpIp + [ToInt(ip[i] + 4 * i)];
      i := i + 1;
    }
  }

  /** The last loop: entries that stay where they are need no move. */
  method MoveEntries(ghost moved: seq<s32>, ip: array<s32>, orc: array<OrcEntry>,
                     idxs: seq<nat>, tmpIp: seq<s32>, tmpOrc: seq<OrcEntry>)
    requires |moved| == |idxs| == |tmpIp| == ip.Length == orc.Length && orc[..] == tmpOrc
    requires forall k :: 0 <= k < ip.Length ==> idxs[k] < ip.Length
    requires forall k :: 0 <= k < ip.Length ==>
      moved[k] == ToInt(tmpIp[idxs[k]] - 4 * k) && (idxs[k] == k ==> moved[k] == ip[k])
    modifies ip, orc
    ensures ip[..] == moved
    ensures forall k :: 0 <= k < ip.Length ==> orc[k] == tmpOrc[idxs[k]]
  {
    var i, n := 0, ip.Length;
    while i < n
      invariant 0 <= i <= n
      invariant forall k :: 0 <= k < i ==> ip[k] == moved[k] && orc[k] == tmpOrc[idxs[k]]
      invariant forall k :: i <= k < n ==> ip[k] == old(ip[k]) && orc[k] == tmpOrc[k]
    {
      if idxs[i] != i {
        ip[i] := ToInt(tmpIp[idxs[i]] - 4 * i);
        orc[i] := tmpOrc[idxs[i]];
      }
      i := i + 1;
    }
  }

  // ----- what the rearrangement means

  /** One permutation, in order, moved both tables. */
  ghost predicate Outcome(t: Tables, t': Tables, perm: seq<nat>) {
    && Matching(t) && IsPermutation(perm, |t.ip|) && Indices(t, perm) && InOrder(t, perm)
    && Rearranged(t, t', perm)
  }

  /** Every entry keeps its 64-bit address and its unwind record. */
  ghost predicate KeepsAddresses(t: Tables, t': Tables, perm: seq<nat>)
    requires Outcome(t, t', perm)
  {
    forall i :: 0 <= i < |perm| ==> OrcIp(t', i) == OrcIp(t, perm[i]) && t'.orc[i] == t.orc[perm[i]]
  }

  /** Addresses do not decrease, and among entries for one address every terminator, an entry of
      type 0, stands to the left of every real entry. */
  ghost predicate SortedTable(t: Tables) {
    && Matching(t)
    && forall i, j :: 0 <= i < j < |t.ip| ==>
      && OrcIp(t, i) <= OrcIp(t, j)
      && (OrcIp(t, i) == OrcIp(t, j) && t.orc[j].kind == 0 ==> t.orc[i].kind == 0)
  }

  /** No offset an `int` can hold leads from a place of the table out of the address space. A
      table of one entry has nothing to move. */
  predicate NoWrap(base: u64, n: nat) {
    n <= 1 || (0x8000_0000 <= base && base + 4 * (n - 1) + 0x8000_0000 <= 0x1_0000_0000_0000_0000)
  }

  /** The places lo .. hi - 1. */
  function Places(lo: nat, hi: nat): (places: set<nat>)
    requires lo <= hi
    ensures |places| == hi - lo && forall x :: x in places <==> lo <= x < hi
  {
    if lo == hi then {} else Places(lo, hi - 1) + {hi - 1}
  }

  /** Among the first i + 1 places some entry comes from place i or beyond, and among those from
      i on some entry comes from place i or before. */
  lemma FromBothSides(perm: seq<nat>, n: nat, i: nat) returns (j: nat, k: nat)
    requires IsPermutation(perm, n) && i < n
    ensures j <= i && perm[j] >= i
    ensures i <= k < n && perm[k] <= i
  {
    var left, right := perm[..i + 1], perm[i..];
    if forall x :: x in left ==> x < i {
      Collections.DistinctCount(left, Places(0, i));
    }
    var a :| a in left && a >= i;
    j :| 0 <= j < |left| && left[j] == a;
    if forall x :: x in right ==> x > i {
      Collections.DistinctCount(right, Places(i + 1, n));
    }
    var b :| b in right && b <= i;
    var m :| 0 <= m < |right| && right[m] == b;
    k := i + m;
  }

  lemma PlainAddress(t: Tables, p: nat)
    requires NoWrap(t.base, |t.ip|) && |t.ip| > 1 && p < |t.ip|
    ensures OrcIp(t, p) == t.base + 4 * p + t.ip[p]
  {}

  /** Sorted order leaves no entry so far from its old place that its offset overflows. */
  lemma OffsetsFit(t: Tables, perm: seq<nat>, i: nat)
    requires Matching(t) && IsPermutation(perm, |t.ip|) && Indices(t, perm) && InOrder(t, perm)
    requires NoWrap(t.base, |t.ip|) && i < |perm|
    ensures OffsetFits(t, perm[i], i)
  {
    if |perm| > 1 {
      var j, k := FromBothSides(perm, |perm|, i);
      PlainAddress(t, perm[i]);
      PlainAddress(t, perm[j]);
      PlainAddress(t, perm[k]);
      assert j < i ==> Before(t, perm[j], perm[i]);
      assert i < k ==> Before(t, perm[i], perm[k]);
    }
  }

  /** Each entry keeps its address modulo 2^32; it keeps the full 64-bit address if and only if
      its offset from its new place fits an `int`. */
  lemma KeptIff(t: Tables, t': Tables, perm: seq<nat>, i: nat)
    requires Matching(t) && Indices(t, perm) && |perm| == |t.ip| && Rearranged(t, t', perm) && i < |perm|
    ensures U32(t'.base + 4 * i + t'.ip[i]) == U32(t.base + 4 * perm[i] + t.ip[perm[i]])
    ensures OffsetFits(t, perm[i], i) ==> OrcIp(t', i) == OrcIp(t, perm[i])
    ensures |t.ip| <= 0x4000_0000 && OrcIp(t', i) == OrcIp(t, perm[i]) ==> OffsetFits(t, perm[i], i)
  {
    MovedIpValue(t, perm[i], i);
    var x, y := 4 * i + t'.ip[i], 4 * perm[i] + t.ip[perm[i]];
    SameLowWord(t.base, x, y);
    if |t.ip| <= 0x4000_0000 && OrcIp(t', i) == OrcIp(t, perm[i]) { SameWord(t.base + x, t.base + y); }
  }

  lemma SameLowWord(b: int, x: int, y: int)
    requires U32(x) == U32(y)
    ensures U32(b + x) == U32(b + y)
  {}

  lemma SameWord(x: int, y: int)
    requires U64(x) == U64(y) && -0x1_0000_0000_0000_0000 < x - y < 0x1_0000_0000_0000_0000
    ensures x == y
  {}

  /** Without wrapping, sorting keeps every 64-bit address with its record, and the new table is
      sorted with terminators to the left. */
  lemma AddressesKept(t: Tables, t': Tables, perm: seq<nat>)
    requires Outcome(t, t', perm) && NoWrap(t.base, |t.ip|)
    ensures KeepsAddresses(t, t', perm) && SortedTable(t')
  {
    forall i | 0 <= i < |perm|
      ensures OrcIp(t', i) == OrcIp(t, perm[i])
    {
      OffsetsFit(t, perm, i);
      KeptIff(t, t', perm, i);
    }
    forall i, j | 0 <= i < j < |perm|
      ensures OrcIp(t', i) <= OrcIp(t', j)
      ensures OrcIp(t', i) == OrcIp(t', j) && t'.orc[j].kind == 0 ==> t'.orc[i].kind == 0
    {
      assert Before(t, perm[i], perm[j]);
    }
  }

  // ----- tables at the ends of the address space

  const PLAIN := OrcEntry(0, 0, 0, 0, 1, false)

  /** A table near address 0 whose first entry points below it: the address wraps to the top, the
      entry moves to the last place, and its offset no longer fits. */
  lemma WrapBelow(base: u64, n: nat) returns (t: Tables, perm: seq<nat>)
    requires 2 <= n <= 0x4000_0000 && base < 0x8000_0000
    ensures t.base == base && |t.ip| == n && Matching(t)
    ensures IsPermutation(perm, n) && Indices(t, perm) && InOrder(t, perm) && !OffsetFits(t, perm[n - 1], n - 1)
  {
    t := Tables(base, seq(n, i => if i == 0 then -0x8000_0000 else 0), seq(n, _ => PLAIN));
    perm := seq(n, i => if i < n - 1 then i + 1 else 0);
    assert OrcIp(t, 0) == base + 0xffff_ffff_8000_0000;
    forall p: nat | 0 < p < n
      ensures OrcIp(t, p) == base + 4 * p
    {}
  }

  /** The mirror image at the top: the last entry wraps to a low address and moves to place 0. */
  lemma WrapAbove(base: u64, n: nat) returns (t: Tables, perm: seq<nat>)
    requires 2 <= n <= 0x4000_0000 && 0x8000_0000 <= base && base + 4 * n <= 0x1_0000_0000_0000_0000
    requires base + 4 * (n - 1) + 0x8000_0000 > 0x1_0000_0000_0000_0000
    ensures t.base == base && |t.ip| == n && Matching(t)
    ensures IsPermutation(perm, n) && Indices(t, perm) && InOrder(t, perm) && !OffsetFits(t, perm[0], 0)
  {
    t := Tables(base, seq(n, i => if i == n - 1 then 0x7fff_ffff else 0), seq(n, _ => PLAIN));
    perm := seq(n, i => if i == 0 then n - 1 else i - 1);
    assert OrcIp(t, n - 1) == base + 4 * (n - 1) + 0x7fff_ffff - 0x1_0000_0000_0000_0000;
    forall p: nat | p < n - 1
      ensures OrcIp(t, p) == base + 4 * p
    {}
  }

  /** A table of n entries at base, of at most the 4 GiB its `unsigned int` size allows, keeps all
      addresses whatever it holds if and only if no offset can wrap. */
  lemma AddressLimit(base: u64, n: nat)
    requires n <= 0x4000_0000 && base + 4 * n <= 0x1_0000_0000_0000_0000
    ensures (forall t, t', perm :: Outcome(t, t', perm) && t.base == base && |t.ip| == n
               ==> KeepsAddresses(t, t', perm))
       <==> NoWrap(base, n)
  {
    if NoWrap(base, n) {
      forall t, t', perm | Outcome(t, t', perm) && t.base == base && |t.ip| == n
        ensures KeepsAddresses(t, t', perm)
      {
        AddressesKept(t, t', perm);
      }
    } else {
      var t, perm, i := LosingTable(base, n);
      var t' := Tables(base, seq(n, k requires 0 <= k < n => MovedIp(t, perm[k], k)),
                       seq(n, k requires 0 <= k < n => t.orc[perm[k]]));
      assert Outcome(t, t', perm);
      KeptIff(t, t', perm, i);
    }
  }

  lemma LosingTable(base: u64, n: nat) returns (t: Tables, perm: seq<nat>, i: nat)
    requires n <= 0x4000_0000 && base + 4 * n <= 0x1_0000_0000_0000_0000 && !NoWrap(base, n)
    ensures t.base == base && |t.ip| == n && Matching(t) && i < n
    ensures IsPermutation(perm, n) && Indices(t, perm) && InOrder(t, perm) && !OffsetFits(t, perm[i], i)
  {
    if base < 0x8000_0000 {
      t, perm := WrapBelow(base, n);
      i := n - 1;
    } else {
      t, perm := WrapAbove(base, n);
      i := 0;
    }
  }
}
