/** Building a sparse virtual-processor set from a CPU mask (include/asm-generic/mshyperv.h).
 */
module VpSets {
  import opened Bits
  import opened HyperV

  const VP_INVAL: u32 := 0xFFFF_FFFF

  /** The machine: which VP number each CPU has, and the largest VP number in use. */
  datatype Machine = Machine(vpIndex: seq<u32>, maxVpIndex: u32)

  /** `cpus` and `func`: a CPU counts when its mask bit is set and func does not skip it. */
  datatype Selection = Selection(mask: seq<bool>, skip: nat -> bool)

  predicate Selected(s: Selection, cpu: nat)
    requires cpu < |s.mask|
  {
    s.mask[cpu] && !s.skip(cpu)
  }

  /** hv_max_vp_index bounds every VP number that is not VP_INVAL. */
  ghost predicate Bounded(m: Machine, s: Selection) {
    && |s.mask| <= |m.vpIndex|
    && forall cpu :: 0 <= cpu < |m.vpIndex| ==> m.vpIndex[cpu] == VP_INVAL || m.vpIndex[cpu] <= m.maxVpIndex
  }

  /** The VP numbers of the first n CPUs that are selected. */
  function Targets(m: Machine, s: Selection, n: nat): set<nat>
    requires n <= |s.mask| <= |m.vpIndex|
  {
    if n == 0 then {}
    else Targets(m, s, n - 1) + if Selected(s, n - 1) then {m.vpIndex[n - 1]} else {}
  }

  lemma {:induction false} TargetsAre(m: Machine, s: Selection, n: nat, v: nat)
    requires n <= |s.mask| <= |m.vpIndex|
    ensures v in Targets(m, s, n)
       <==> exists cpu: nat :: cpu < n && s.mask[cpu] && !s.skip(cpu) && m.vpIndex[cpu] == v
  {
    if n > 0 {
      TargetsAre(m, s, n - 1, v);
      if v == m.vpIndex[n - 1] && Selected(s, n - 1) {
        assert v in Targets(m, s, n);
      }
    }
  }

  // ----- the sparse set as the hypervisor reads it

  /** The number of valid banks below bank k: their contents are packed without holes. */
  function Rank(validBankMask: nat, k: nat): nat {
    if k == 0 then 0 else Rank(validBankMask, k - 1) + if Bit(validBankMask, k - 1) then 1 else 0
  }

  /** VP number v is in the set. */
  predicate Denotes(validBankMask: nat, contents: seq<u64>, v: nat) {
    var bank := v / 64;
    && bank < 64 && Bit(validBankMask, bank)
    && Rank(validBankMask, bank) < |contents|
    && Bit(contents[Rank(validBankMask, bank)], v % 64)
  }

  /** With a mask that has no gaps, bank k is at position k. */
  lemma {:induction false} RankOfLowMask(mask: nat, n: nat, k: nat)
    requires k <= n && forall i: nat :: Bit(mask, i) == (i < n)
    ensures Rank(mask, k) == k
  {
    if k > 0 { RankOfLowMask(mask, n, k - 1); }
  }

  // ----- the builder

  /** The banks up to last hold exactly the VP numbers in vps. */
  ghost predicate Holds(contents: seq<u64>, last: nat, vps: set<nat>)
    requires last < |contents|
  {
    forall b: nat, o: nat :: b <= last && o < 64 ==> (Bit(contents[b], o) <==> 64 * b + o in vps)
  }

  /** Adding one VP number. */
  lemma AddBit(contents: seq<u64>, last: nat, vps: set<nat>, bank: nat, offset: nat)
    requires last < |contents| && Holds(contents, last, vps) && bank <= last && offset < 64
    ensures Or(contents[bank], Pow2(offset)) < 0x1_0000_0000_0000_0000
    ensures Holds(contents[bank := Or(contents[bank], Pow2(offset))], last, vps + {64 * bank + offset})
  {
    WordBit(contents[bank], offset);
    var contents' := contents[bank := Or(contents[bank], Pow2(offset))];
    forall b: nat, o: nat | b <= last && o < 64
      ensures Bit(contents'[b], o) <==> 64 * b + o in vps + {64 * bank + offset}
    {
      BitOfOrPow2(contents[bank], offset, o);
      assert Bit(contents[b], o) <==> 64 * b + o in vps;
    }
  }

  lemma WordBit(word: u64, offset: nat)
    requires offset < 64
    ensures Or(word, Pow2(offset)) < 0x1_0000_0000_0000_0000
  {
    Pow2At64();
    Pow2Mono(offset + 1, 64);
    OrBounded(word, Pow2(offset), 64);
  }

  /** A gap-free mask over the banks decodes to the VP numbers they hold. */
  lemma Decoding(mask: nat, contents: seq<u64>, n: nat, last: nat, vps: set<nat>, v: nat)
    requires n <= last + 1 <= |contents| && last < 64 && Holds(contents, last, vps)
    requires forall i: nat :: Bit(mask, i) == (i < n)
    requires forall x :: x in vps ==> x / 64 < n
    ensures Denotes(mask, contents, v) <==> v in vps
  {
    var bank := v / 64;
    if bank < n {
      RankOfLowMask(mask, n, bank);
      assert 64 * bank + v % 64 == v;
      assert Bit(contents[bank], v % 64) <==> 64 * bank + v % 64 in vps;
    }
  }

  lemma {:induction false} ClearWords(contents: seq<u64>, last: nat)
    requires last < |contents| && forall b :: 0 <= b <= last ==> contents[b] == 0
    ensures Holds(contents, last, {})
  {
    forall b: nat, o: nat | b <= last && o < 64
      ensures !Bit(contents[b], o)
    {
      ZeroBit(o);
    }
  }

  /** `struct hv_vpset` */
  class VpSet {
    var validBankMask: u64
    const bankContents: array<u64>

    constructor (banks: array<u64>)
      ensures bankContents == banks
    {
      validBankMask := 0;
      bankContents := banks;
    }

    /** The first loop: nothing of an earlier set is left in the banks that can be used. */
    method ClearBanks(last: nat)
      requires last < bankContents.Length
      modifies bankContents
      ensures Holds(bankContents[..], last, {})
      ensures bankContents[last + 1..] == old(bankContents[last + 1..])
    {
      var bank := 0;
      while bank <= last
        invariant 0 <= bank <= last + 1
        invariant forall b :: 0 <= b < bank ==> bankContents[b] == 0
        invariant bankContents[last + 1..] == old(bankContents[last + 1..])
      {
        bankContents[bank] := 0;
        bank := bank + 1;
      }
      ClearWords(bankContents[..], last);
    }

    /** `__set_bit` on a bank. */
    method SetBit(bank: nat, offset: nat, last: nat, ghost vps: set<nat>)
      requires last < bankContents.Length && Holds(bankContents[..], last, vps) && bank <= last && offset < 64
      modifies bankContents
      ensures Holds(bankContents[..], last, vps + {64 * bank + offset})
      ensures bankContents[last + 1..] == old(bankContents[last + 1..])
    {
      AddBit(bankContents[..], last, vps, bank, offset);
      ghost var before := bankContents[..];
      bankContents[bank] := Or(bankContents[bank], Pow2(offset));
      assert bankContents[..] == before[bank := bankContents[bank]];
    }

    /** The second loop. */
    method SetBits(m: Machine, s: Selection, last: nat) returns (nrBank: int)
      requires Bounded(m, s) && m.maxVpIndex / 64 == last < 64 && last < bankContents.Length
      requires Holds(bankContents[..], last, {})
      modifies bankContents
      ensures nrBank == -1 <==> VP_INVAL in Targets(m, s, |s.mask|)
      ensures nrBank != -1 ==>
        && 1 <= nrBank <= last + 1 && Holds(bankContents[..], last, Targets(m, s, |s.mask|))
        && LeastCount(nrBank, Targets(m, s, |s.mask|))
      ensures bankContents[last + 1..] == old(bankContents[last + 1..])
    {
      nrBank := 1;
      var cpu := 0;
      while cpu < |s.mask|
        invariant 0 <= cpu <= |s.mask|
        invariant VP_INVAL !in Targets(m, s, cpu)
        invariant 1 <= nrBank <= last + 1 && Holds(bankContents[..], last, Targets(m, s, cpu))
        invariant LeastCount(nrBank, Targets(m, s, cpu))
        invariant bankContents[last + 1..] == old(bankContents[last + 1..])
      {
        if Selected(s, cpu) {
          var vcpu := m.vpIndex[cpu];
          if vcpu == VP_INVAL {
            TargetsGrow(m, s, cpu + 1, |s.mask|);
            return -1;
          }
          var bank, offset := vcpu / 64, vcpu % 64;
          ghost var vps := Targets(m, s, cpu);
          assert Targets(m, s, cpu + 1) == vps + {64 * bank + offset};
          SetBit(bank, offset, last, vps);
          CountCovers(nrBank, vps, vcpu);
          if bank >= nrBank {
            nrBank := bank + 1;
          }
        }
        cpu := cpu + 1;
      }
    }

    /** `__cpumask_to_vpset` */
    method FromCpumask(m: Machine, s: Selection) returns (nrBank: int)
      requires Bounded(m, s) && (m.maxVpIndex / 64 < 64 ==> m.maxVpIndex / 64 < bankContents.Length)
      modifies this, bankContents
      ensures nrBank == 0 <==> m.maxVpIndex >= 64 * 64
      ensures nrBank == -1 <==> m.maxVpIndex < 64 * 64 && 0xFFFF_FFFF in Targets(m, s, |s.mask|)
      ensures nrBank <= 0 ==> validBankMask == old(validBankMask)
      ensures nrBank == 0 ==> bankContents[..] == old(bankContents[..])
      ensures nrBank > 0 ==>
        && (forall k: nat :: Bit(validBankMask, k) <==> k < nrBank)
        && (forall v: nat :: Denotes(validBankMask, bankContents[..], v) <==> v in Targets(m, s, |s.mask|))
        && LeastCount(nrBank, Targets(m, s, |s.mask|))
      ensures -1 <= nrBank <= 64
    {
      var last := m.maxVpIndex / 64;
      if last >= 64 {
        return 0;
      }
      ClearBanks(last);
      nrBank := SetBits(m, s, last);
      if nrBank == -1 {
        return;
      }
      validBankMask := LowMask(nrBank);
      forall v: nat
        ensures Denotes(validBankMask, bankContents[..], v) <==> v in Targets(m, s, |s.mask|)
      {
        Decoding(validBankMask, bankContents[..], nrBank, last, Targets(m, s, |s.mask|), v);
      }
    }
  }

  /** The smallest positive number of banks that covers vps. */
  ghost predicate LeastCount(n: int, vps: set<nat>) {
    && n >= 1 && (forall v :: v in vps ==> v / 64 < n)
    && (n == 1 || exists v :: v in vps && v / 64 == n - 1)
  }

  lemma CountCovers(n: int, vps: set<nat>, v: nat)
    requires LeastCount(n, vps)
    ensures LeastCount(if v / 64 >= n then v / 64 + 1 else n, vps + {v})
  {
    if v / 64 >= n {
      assert v in vps + {v};
    } else if n != 1 {
      var x :| x in vps && x / 64 == n - 1;
      assert x in vps + {v};
    }
  }

  lemma {:induction false} TargetsGrow(m: Machine, s: Selection, n: nat, n': nat)
    requires n <= n' <= |s.mask| <= |m.vpIndex|
    ensures Targets(m, s, n) <= Targets(m, s, n')
  {
    if n < n' { TargetsGrow(m, s, n, n' - 1); }
  }

  /** `GENMASK_ULL(n - 1, 0)` */
  method LowMask(n: nat) returns (mask: u64)
    requires 1 <= n <= 64
    ensures forall k: nat :: Bit(mask, k) <==> k < n
  {
    GenMaskBits(n - 1, 0, 0);
    mask := GenMask(n - 1, 0);
    forall k: nat
      ensures Bit(mask, k) <==> k < n
    {
      GenMaskBits(n - 1, 0, k);
    }
  }
}
