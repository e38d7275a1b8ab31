/** RAID-5 checksumming (include/asm-generic/xor.h): four loop templates, each for one to four
    sources, that all add the sources to p1 word by word.
 */
module Xor {
  import opened Collections

  /** A C `unsigned long` as its 64 binary digits. */
  type Word = w: seq<bool> | |w| == 64 witness seq(64, _ => false)

  const ZERO: Word := seq(64, _ => false)

  /** `a ^ b` */
  function Xor(a: Word, b: Word): Word { seq(64, i requires 0 <= i < 64 => a[i] != b[i]) }

  /** Adding a word twice leaves nothing, zero adds nothing, and the order does not matter. */
  lemma Algebra(a: Word, b: Word)
    ensures Xor(a, ZERO) == a && Xor(a, a) == ZERO && Xor(a, b) == Xor(b, a)
    ensures forall k :: 0 <= k < 64 ==> !ZERO[k]
  {}

  lemma Associative(a: Word, b: Word, c: Word)
    ensures Xor(Xor(a, b), c) == Xor(a, Xor(b, c))
  {}

  /** The sum of word i over all sources. */
  function XorAt(sources: seq<array<Word>>, i: nat): Word
    requires forall s :: s in sources ==> i < s.Length
    reads sources
  {
    if sources == [] then ZERO
    else Xor(XorAt(sources[..|sources| - 1], i), sources[|sources| - 1][i])
  }

  /** What the callers must give: at least one whole line of eight words, blocks that are long
      enough, and (`__restrict`) a p1 that is none of the sources. */
  ghost predicate Blocks(bytes: nat, p1: array<Word>, sources: seq<array<Word>>) {
    && 1 <= |sources| <= 4 && p1 !in sources && bytes >= 64
    && bytes / 64 * 8 <= p1.Length
    && forall s :: s in sources ==> bytes / 64 * 8 <= s.Length
  }

  ghost predicate LineFits(p1: array<Word>, sources: seq<array<Word>>, at: nat) {
    p1 !in sources && at + 8 <= p1.Length && forall s :: s in sources ==> at + 8 <= s.Length
  }

  /** `p1[i] ^= p2[i] ^ p3[i] ...` */
  method AddWord(p1: array<Word>, sources: seq<array<Word>>, i: nat)
    requires p1 !in sources && i < p1.Length && forall s :: s in sources ==> i < s.Length
    modifies p1
    ensures forall j :: 0 <= j < p1.Length ==> p1[j] == if j == i then Xor(old(p1[i]), XorAt(sources, i)) else old(p1[j])
  {
    p1[i] := Xor(p1[i], XorAt(sources, i));
  }

  /** Half a line of the 8regs templates. */
  method AddFour(p1: array<Word>, sources: seq<array<Word>>, at: nat)
    requires p1 !in sources && at + 4 <= p1.Length && forall s :: s in sources ==> at + 4 <= s.Length
    modifies p1
    ensures forall i :: 0 <= i < p1.Length ==>
      p1[i] == if at <= i < at + 4 then Xor(old(p1[i]), XorAt(sources, i)) else old(p1[i])
  {
    AddWord(p1, sources, at);
    AddWord(p1, sources, at + 1);
    AddWord(p1, sources, at + 2);
    AddWord(p1, sources, at + 3);
  }

  /** One line of the 8regs templates. */
  method Line8(p1: array<Word>, sources: seq<array<Word>>, at: nat)
    requires LineFits(p1, sources, at)
    modifies p1
    ensures forall i :: 0 <= i < p1.Length ==>
      p1[i] == if at <= i < at + 8 then Xor(old(p1[i]), XorAt(sources, i)) else old(p1[i])
  {
    AddFour(p1, sources, at);
    AddFour(p1, sources, at + 4);
  }

  /** One line of the 32regs templates: load eight registers, add source after source, store. */
  method Line32(p1: array<Word>, sources: seq<array<Word>>, at: nat)
    requires LineFits(p1, sources, at)
    modifies p1
    ensures forall i :: 0 <= i < p1.Length ==>
      p1[i] == if at <= i < at + 8 then Xor(old(p1[i]), XorAt(sources, i)) else old(p1[i])
  {
    var d := p1[at..at + 8];
    var k := 0;
    while k < |sources|
      invariant 0 <= k <= |sources| && |d| == 8 && p1[..] == old(p1[..])
      invariant forall j :: 0 <= j < 8 ==> d[j] == Xor(p1[at + j], XorAt(sources[..k], at + j))
    {
      d := AddTo(d, sources[k], at);
      assert sources[..k + 1][..k] == sources[..k];
      forall j | 0 <= j < 8
        ensures d[j] == Xor(p1[at + j], XorAt(sources[..k + 1], at + j))
      {
        Associative(p1[at + j], XorAt(sources[..k], at + j), sources[k][at + j]);
      }
      k := k + 1;
    }
    assert sources[..k] == sources;
    StoreLine(p1, at, d);
  }

  method AddTo(d: seq<Word>, source: array<Word>, at: nat) returns (r: seq<Word>)
    requires |d| == 8 && at + 8 <= source.Length
    ensures |r| == 8 && forall j :: 0 <= j < 8 ==> r[j] == Xor(d[j], source[at + j])
  {
    r := [Xor(d[0], source[at]), Xor(d[1], source[at + 1]), Xor(d[2], source[at + 2]), Xor(d[3], source[at + 3]),
          Xor(d[4], source[at + 4]), Xor(d[5], source[at + 5]), Xor(d[6], source[at + 6]), Xor(d[7], source[at + 7])];
  }

  method StoreLine(p1: array<Word>, at: nat, d: seq<Word>)
    requires |d| == 8 && at + 8 <= p1.Length
    modifies p1
    ensures forall i :: 0 <= i < p1.Length ==> p1[i] == if at <= i < at + 8 then d[i - at] else old(p1[i])
  {
    p1[at], p1[at + 1], p1[at + 2], p1[at + 3] := d[0], d[1], d[2], d[3];
    p1[at + 4], p1[at + 5], p1[at + 6], p1[at + 7] := d[4], d[5], d[6], d[7];
  }

  // ----- the loops

  /** The words of the first n lines have been added, all others are as before. */
  twostate predicate Added(p1: array<Word>, sources: seq<array<Word>>, n: nat)
    requires forall s :: s in sources ==> 8 * n <= s.Length
    reads p1, sources
  {
    forall i :: 0 <= i < p1.Length ==>
      p1[i] == if i < 8 * n then Xor(old(p1[i]), XorAt(sources, i)) else old(p1[i])
  }

  /** `xor_8regs_2` to `xor_8regs_5` */
  method Xor8Regs(bytes: nat, p1: array<Word>, sources: seq<array<Word>>)
    requires Blocks(bytes, p1, sources)
    modifies p1
    ensures Added(p1, sources, bytes / 64)
  {
    var lines, at := bytes / 8 / 8, 0;
    ghost var done := 0;
    while true
      invariant at == 8 * done && lines == bytes / 64 - done >= 1
      invariant Added(p1, sources, done)
      decreases lines
    {
      Line8(p1, sources, at);
      done := done + 1;
      at := at + 8;
      lines := lines - 1;
      if !(lines > 0) {
        break;
      }
    }
  }

  /** `xor_32regs_2` to `xor_32regs_5` */
  method Xor32Regs(bytes: nat, p1: array<Word>, sources: seq<array<Word>>)
    requires Blocks(bytes, p1, sources)
    modifies p1
    ensures Added(p1, sources, bytes / 64)
  {
    var lines, at := bytes / 8 / 8, 0;
    ghost var done := 0;
    while true
      invariant at == 8 * done && lines == bytes / 64 - done >= 1
      invariant Added(p1, sources, done)
      decreases lines
    {
      Line32(p1, sources, at);
      done := done + 1;
      at := at + 8;
      lines := lines - 1;
      if !(lines > 0) {
        break;
      }
    }
  }

  // In the prefetch variants `goto once_more` enters the loop below its prefetches, so a pass
  // starts either at the top or there.
  /** `xor_8regs_p_2` to `xor_8regs_p_5` */
  method Xor8RegsPrefetch(bytes: nat, p1: array<Word>, sources: seq<array<Word>>) returns (ghost prefetched: seq<nat>)
    requires Blocks(bytes, p1, sources)
    modifies p1
    ensures Added(p1, sources, bytes / 64)
    ensures prefetched == UpTo(if bytes / 64 == 1 then 2 else bytes / 64)
  {
    var lines, at, atTop := bytes / 8 / 8 - 1, 0, true;
    ghost var done := 0;
    prefetched := [0];
    while true
      invariant at == 8 * done && 0 <= lines == bytes / 64 - 1 - done
      invariant Added(p1, sources, done)
      invariant prefetched == UpTo(done + 1) && atTop == (lines > 0 || done == 0)
      decreases lines
    {
      if atTop {
        prefetched := prefetched + [done + 1];
      }
      Line8(p1, sources, at);
      done := done + 1;
      at := at + 8;
      lines := lines - 1;
      if lines > 0 {
        atTop := true;
      } else if lines == 0 {
        atTop := false;
      } else {
        break;
      }
    }
  }

  /** `xor_32regs_p_2` to `xor_32regs_p_5` */
  method Xor32RegsPrefetch(bytes: nat, p1: array<Word>, sources: seq<array<Word>>) returns (ghost prefetched: seq<nat>)
    requires Blocks(bytes, p1, sources)
    modifies p1
    ensures Added(p1, sources, bytes / 64)
    ensures prefetched == UpTo(if bytes / 64 == 1 then 2 else bytes / 64)
  {
    var lines, at, atTop := bytes / 8 / 8 - 1, 0, true;
    ghost var done := 0;
    prefetched := [0];
    while true
      invariant at == 8 * done && 0 <= lines == bytes / 64 - 1 - done
      invariant Added(p1, sources, done)
      invariant prefetched == UpTo(done + 1) && atTop == (lines > 0 || done == 0)
      decreases lines
    {
      if atTop {
        prefetched := prefetched + [done + 1];
      }
      Line32(p1, sources, at);
      done := done + 1;
      at := at + 8;
      lines := lines - 1;
      if lines > 0 {
        atTop := true;
      } else if lines == 0 {
        atTop := false;
      } else {
        break;
      }
    }
  }

  // ----- parity

  /** Adding the sources in batches is adding them all. */
  lemma {:induction false} Batches(a: seq<array<Word>>, b: seq<array<Word>>, i: nat)
    requires forall s :: s in a + b ==> i < s.Length
    ensures XorAt(a + b, i) == Xor(XorAt(a, i), XorAt(b, i))
  {
    if b == [] {
      assert a + b == a;
    } else {
      var n := |b| - 1;
      assert (a + b)[..|a| + n] == a + b[..n];
      Batches(a, b[..n], i);
      Associative(XorAt(a, i), XorAt(b[..n], i), b[n][i]);
    }
  }

  lemma Cancel(a: Word, b: Word, d: Word)
    ensures Xor(Xor(Xor(a, d), b), Xor(a, b)) == d
  {}

  /** The parity of all blocks, plus all blocks but one, is the missing one. */
  lemma Recovery(blocks: seq<array<Word>>, lost: nat, i: nat)
    requires lost < |blocks| && forall s :: s in blocks ==> i < s.Length
    ensures forall s :: s in blocks[..lost] + blocks[lost + 1..] ==> i < s.Length
    ensures Xor(XorAt(blocks, i), XorAt(blocks[..lost] + blocks[lost + 1..], i)) == blocks[lost][i]
  {
    var a, d, b := blocks[..lost], blocks[lost], blocks[lost + 1..];
    assert blocks == a + [d] + b && (a + [d])[..lost] == a;
    Batches(a + [d], b, i);
    Batches(a, b, i);
    Cancel(XorAt(a, i), XorAt(b, i), d[i]);
  }

  /** So adding the surviving blocks to a block that holds the parity rebuilds the lost one. */
  twostate lemma Rebuilt(p1: array<Word>, blocks: seq<array<Word>>, lost: nat, n: nat)
    requires lost < |blocks| && 8 * n <= p1.Length && forall s :: s in blocks ==> 8 * n <= s.Length
    requires forall i: nat :: i < 8 * n ==> old(p1[i]) == XorAt(blocks, i)
    requires Added(p1, blocks[..lost] + blocks[lost + 1..], n)
    ensures forall i: nat :: i < 8 * n ==> p1[i] == blocks[lost][i]
  {
    forall i: nat | i < 8 * n
      ensures p1[i] == blocks[lost][i]
    {
      Recovery(blocks, lost, i);
    }
  }
}
