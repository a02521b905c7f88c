/** Machine words, page arithmetic and small facts about sequences without
    repetitions that the memory modules share. */
module Machine {

  type word = x: int | 0 <= x < 0x1_0000_0000

  type uchar = x: int | 0 <= x < 0x100

  const PAGE_SIZE := 4096

  /** Start of the managed memory: VALID_MEMORY_FROM, one megabyte. */
  const BASE := 0x100000

  /** `a & 0xfffff000`: the page in which address `a` lies. */
  function PageOf(a: int): int {
    a - a % PAGE_SIZE
  }

  function PageAddr(i: int): int {
    BASE + i * PAGE_SIZE
  }

  function PageIndex(p: int): int {
    (p - BASE) / PAGE_SIZE
  }

  /** No value occurs twice. */
  ghost predicate NoDup(s: seq<int>) {
    forall i, j :: 0 <= i < j < |s| ==> s[i] != s[j]
  }

  /** The elements of a sequence as a set. */
  ghost function Elems(s: seq<int>): set<int> {
    set x | x in s
  }

  /** `s[j]`, or the null pointer behind the end: what a link field of
      a list with the nodes `s` holds. */
  function Nth(s: seq<int>, j: nat): int {
    if j < |s| then s[j] else 0
  }

  lemma {:induction false} ElemsSize(s: seq<int>)
    requires NoDup(s)
    ensures |Elems(s)| == |s|
  {
    if s != [] {
      ElemsSize(s[1..]);
      assert Elems(s) == {s[0]} + Elems(s[1..]);
      assert s[0] !in Elems(s[1..]);
    }
  }
}
