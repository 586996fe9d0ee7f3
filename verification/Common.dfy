/** Types and facts that the other modules share. */
module Common {

  datatype Option<T> = None | Some(value: T)

  const TWO_16 := 0x1_0000
  const TWO_31 := 0x8000_0000
  const TWO_32 := 0x1_0000_0000
  const TWO_63 := 0x8000_0000_0000_0000
  const TWO_64 := 0x1_0000_0000_0000_0000

  /** The machine integers of the source; arithmetic on them is written out. */
  type u8 = x: int | 0 <= x < 0x100
  type i16 = x: int | -0x8000 <= x < 0x8000
  type i32 = x: int | -TWO_31 <= x < TWO_31
  type u32 = x: int | 0 <= x < TWO_32
  type i64 = x: int | -TWO_63 <= x < TWO_63
  type u64 = x: int | 0 <= x < TWO_64

  type byte = u8

  type JobId = nat
  type WorkerId = string

  function SaturatingSub(a: nat, b: nat): nat {
    if a >= b then a - b else 0
  }

  predicate StartsWith(s: string, p: string) {
    |p| <= |s| && s[..|p|] == p
  }

  ghost predicate Ascending(s: seq<nat>) {
    forall i, j :: 0 <= i < j < |s| ==> s[i] < s[j]
  }

  ghost predicate Distinct<T>(s: seq<T>) {
    forall i, j :: 0 <= i < j < |s| ==> s[i] != s[j]
  }

  lemma ConcatAssoc<T>(a: seq<T>, b: seq<T>, c: seq<T>)
    ensures a + b + c == a + (b + c)
  {
  }
}
