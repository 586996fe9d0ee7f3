/** The append-only accounting file: records behind an eight-byte length. */
module AccountingLog {
  import opened Common

  const LENGTH_SIZE := 8
  const MAX_RECORD_SIZE := 100 * 1024 * 1024

  /** A serialized record. */
  type Blob = seq<byte>

  /** Lengths are machine words. */
  ghost predicate Sized(recs: seq<Blob>) {
    forall i :: 0 <= i < |recs| ==> |recs[i]| < TWO_64
  }

  function Pow256(k: nat): nat {
    if k == 0 then 1 else 0x100 * Pow256(k - 1)
  }

  /** `k` bytes of `n`, least significant first. */
  function LittleEndian(n: nat, k: nat): (s: seq<byte>)
    ensures |s| == k
  {
    if k == 0 then [] else [n % 0x100] + LittleEndian(n / 0x100, k - 1)
  }

  function FromLittleEndian(s: seq<byte>): nat {
    if s == [] then 0 else (s[0] as int) + 0x100 * FromLittleEndian(s[1..])
  }

  lemma {:induction false} LittleEndianRoundTrip(n: nat, k: nat)
    requires n < Pow256(k)
    ensures FromLittleEndian(LittleEndian(n, k)) == n
  {
    if k > 0 {
      assert n / 0x100 < Pow256(k - 1);
      LittleEndianRoundTrip(n / 0x100, k - 1);
      assert LittleEndian(n, k)[1..] == LittleEndian(n / 0x100, k - 1);
    }
  }

  /** The field has eight bytes, the least significant first. */
  lemma LengthOrder(n: nat)
    ensures |LittleEndian(n, LENGTH_SIZE)| == 8 && (n - LittleEndian(n, LENGTH_SIZE)[0]) % 0x100 == 0
  {
  }

  lemma LengthRoundTrip(n: nat)
    requires n < TWO_64
    ensures FromLittleEndian(LittleEndian(n, LENGTH_SIZE)) == n
  {
    assert Pow256(4) == 0x1_0000_0000;
    assert Pow256(8) == 0x1_0000 * 0x1_0000 * Pow256(4);
    LittleEndianRoundTrip(n, LENGTH_SIZE);
  }

  function Entry(r: Blob): (e: seq<byte>)
    ensures |e| == LENGTH_SIZE + |r|
  {
    LittleEndian(|r|, LENGTH_SIZE) + r
  }

  /** The file after writing these records in order. */
  function WriteLog(recs: seq<Blob>): seq<byte> {
    if recs == [] then [] else WriteLog(recs[..|recs| - 1]) + Entry(recs[|recs| - 1])
  }

  /** The record at the front of the file, if it is whole and within the cap. */
  predicate HasEntry(s: seq<byte>) {
    && |s| >= LENGTH_SIZE
    && FromLittleEndian(s[..LENGTH_SIZE]) <= MAX_RECORD_SIZE
    && |s| >= LENGTH_SIZE + FromLittleEndian(s[..LENGTH_SIZE])
  }

  function EntryEnd(s: seq<byte>): (n: nat)
    requires HasEntry(s)
    ensures LENGTH_SIZE <= n <= |s|
  {
    LENGTH_SIZE + FromLittleEndian(s[..LENGTH_SIZE])
  }

  /** What reading to the first short or oversized record yields. */
  function ReadLog(s: seq<byte>): seq<Blob>
    decreases |s|
  {
    if !HasEntry(s) then [] else [s[LENGTH_SIZE..EntryEnd(s)]] + ReadLog(s[EntryEnd(s)..])
  }

  lemma {:induction false} WriteLogConcat(xs: seq<Blob>, ys: seq<Blob>)
    ensures WriteLog(xs + ys) == WriteLog(xs) + WriteLog(ys)
  {
    if ys == [] {
      assert xs + ys == xs;
    } else {
      var n := |ys| - 1;
      var all := xs + ys;
      assert all[..|all| - 1] == xs + ys[..n] && all[|all| - 1] == ys[n];
      WriteLogConcat(xs, ys[..n]);
      ConcatAssoc(WriteLog(xs), WriteLog(ys[..n]), Entry(ys[n]));
    }
  }

  lemma WriteLogSnoc(recs: seq<Blob>, r: Blob)
    ensures WriteLog(recs + [r]) == WriteLog(recs) + Entry(r)
  {
    assert (recs + [r])[..|recs|] == recs;
  }

  lemma WriteLogHead(recs: seq<Blob>)
    requires recs != []
    ensures WriteLog(recs) == Entry(recs[0]) + WriteLog(recs[1..])
  {
    var one: seq<Blob> := [recs[0]];
    assert recs == one + recs[1..];
    assert one[..0] == [];
    assert WriteLog(one) == [] + Entry(recs[0]);
    WriteLogConcat(one, recs[1..]);
  }

  /** Reading a cut file looks only at the bytes before the cut. */
  lemma EntryInFront(r: Blob, rest: seq<byte>, k: nat)
    requires |r| < TWO_64
    requires k <= LENGTH_SIZE + |r| + |rest|
    ensures var s := (Entry(r) + rest)[..k];
            if |r| <= MAX_RECORD_SIZE && LENGTH_SIZE + |r| <= k
            then ReadLog(s) == [r] + ReadLog(rest[..k - LENGTH_SIZE - |r|])
            else ReadLog(s) == []
  {
    var s := (Entry(r) + rest)[..k];
    LengthRoundTrip(|r|);
    if k >= LENGTH_SIZE {
      assert s[..LENGTH_SIZE] == LittleEndian(|r|, LENGTH_SIZE);
      if |r| <= MAX_RECORD_SIZE && LENGTH_SIZE + |r| <= k {
        var front := rest[..k - LENGTH_SIZE - |r|];
        assert s == Entry(r) + front;
        assert s[LENGTH_SIZE..LENGTH_SIZE + |r|] == r && s[LENGTH_SIZE + |r|..] == front;
      }
    }
  }

  /** `m` counts the records that lie wholly before byte `k`, up to the first
      one over the size cap. */
  ghost predicate WholeBefore(recs: seq<Blob>, k: nat, m: nat) {
    && m <= |recs| && |WriteLog(recs[..m])| <= k
    && (forall i :: 0 <= i < m ==> |recs[i]| <= MAX_RECORD_SIZE)
    && (m < |recs| ==> |recs[m]| > MAX_RECORD_SIZE || |WriteLog(recs[..m + 1])| > k)
  }

  lemma WholeBeforeTail(recs: seq<Blob>, k: nat, m: nat)
    requires recs != [] && |recs[0]| <= MAX_RECORD_SIZE && LENGTH_SIZE + |recs[0]| <= k
    requires WholeBefore(recs[1..], k - LENGTH_SIZE - |recs[0]|, m)
    ensures WholeBefore(recs, k, m + 1)
  {
    FrontSize(recs, m + 1);
    forall i | 0 <= i < m + 1 ensures |recs[i]| <= MAX_RECORD_SIZE {
      if i > 0 { assert recs[i] == recs[1..][i - 1]; }
    }
    if m + 1 < |recs| { FrontSize(recs, m + 2); }
  }

  lemma WholeBeforeNone(recs: seq<Blob>, k: nat)
    requires recs != [] ==> |recs[0]| > MAX_RECORD_SIZE || LENGTH_SIZE + |recs[0]| > k
    ensures WholeBefore(recs, k, 0)
  {
    if recs != [] { FrontSize(recs, 1); }
  }

  ghost function CountWhole(recs: seq<Blob>, k: nat): (m: nat)
    ensures m <= |recs|
    decreases |recs|
  {
    if recs == [] || |recs[0]| > MAX_RECORD_SIZE || LENGTH_SIZE + |recs[0]| > k then 0
    else 1 + CountWhole(recs[1..], k - LENGTH_SIZE - |recs[0]|)
  }

  lemma {:induction false} CountedWhole(recs: seq<Blob>, k: nat)
    ensures WholeBefore(recs, k, CountWhole(recs, k))
    decreases |recs|
  {
    if recs == [] || |recs[0]| > MAX_RECORD_SIZE || LENGTH_SIZE + |recs[0]| > k {
      WholeBeforeNone(recs, k);
    } else {
      CountedWhole(recs[1..], k - LENGTH_SIZE - |recs[0]|);
      WholeBeforeTail(recs, k, CountWhole(recs[1..], k - LENGTH_SIZE - |recs[0]|));
    }
  }

  ghost predicate ReadsBack(recs: seq<Blob>, k: nat, log: seq<byte>) {
    k <= |log| && ReadLog(log[..k]) == recs[..CountWhole(recs, k)]
  }

  lemma ReadsBackHead(recs: seq<Blob>, k: nat, log: seq<byte>, rest: seq<byte>)
    requires Sized(recs) && recs != [] && log == Entry(recs[0]) + rest && k <= |log|
    requires LENGTH_SIZE + |recs[0]| <= k ==> ReadsBack(recs[1..], k - LENGTH_SIZE - |recs[0]|, rest)
    ensures ReadsBack(recs, k, log)
  {
    var r := recs[0];
    EntryInFront(r, rest, k);
    if |r| <= MAX_RECORD_SIZE && LENGTH_SIZE + |r| <= k {
      var m := CountWhole(recs[1..], k - LENGTH_SIZE - |r|);
      assert recs[..m + 1] == [r] + recs[1..][..m];
    }
  }

  lemma {:induction false} ReadCounted(recs: seq<Blob>, k: nat)
    requires Sized(recs) && k <= |WriteLog(recs)|
    ensures ReadsBack(recs, k, WriteLog(recs))
    decreases |recs|
  {
    if recs != [] {
      WriteLogHead(recs);
      if LENGTH_SIZE + |recs[0]| <= k { ReadCounted(recs[1..], k - LENGTH_SIZE - |recs[0]|); }
      ReadsBackHead(recs, k, WriteLog(recs), WriteLog(recs[1..]));
    }
  }

  /** Cutting the file at any byte makes the reader return exactly the records
      that lie wholly before the cut. */
  lemma ReadCutLog(recs: seq<Blob>, k: nat) returns (m: nat)
    requires Sized(recs) && k <= |WriteLog(recs)|
    ensures WholeBefore(recs, k, m) && ReadLog(WriteLog(recs)[..k]) == recs[..m]
  {
    m := CountWhole(recs, k);
    CountedWhole(recs, k);
    ReadCounted(recs, k);
  }

  lemma FrontSize(recs: seq<Blob>, m: nat)
    requires 0 < m <= |recs|
    ensures |WriteLog(recs[..m])| == LENGTH_SIZE + |recs[0]| + |WriteLog(recs[1..][..m - 1])|
  {
    WriteLogHead(recs[..m]);
    assert recs[..m][1..] == recs[1..][..m - 1];
  }

  ghost predicate ReadFirst(recs: seq<Blob>, log: seq<byte>, behind: seq<byte>) {
    ReadLog(log + behind) == recs + ReadLog(behind)
  }

  /** Records within the cap are read back whatever follows them. */
  lemma {:induction false} ReadInFront(recs: seq<Blob>, behind: seq<byte>)
    requires forall i :: 0 <= i < |recs| ==> |recs[i]| <= MAX_RECORD_SIZE
    ensures ReadFirst(recs, WriteLog(recs), behind)
    decreases |recs|
  {
    if recs == [] {
      assert WriteLog(recs) + behind == behind;
    } else {
      WriteLogHead(recs);
      ReadInFront(recs[1..], behind);
      ReadHead(recs, WriteLog(recs[1..]), behind, WriteLog(recs));
    }
  }

  lemma ReadHead(recs: seq<Blob>, rest: seq<byte>, behind: seq<byte>, log: seq<byte>)
    requires recs != [] && |recs[0]| <= MAX_RECORD_SIZE && log == Entry(recs[0]) + rest
    requires ReadFirst(recs[1..], rest, behind)
    ensures ReadFirst(recs, log, behind)
  {
    var r := recs[0];
    ConcatAssoc(Entry(r), rest, behind);
    var s := Entry(r) + (rest + behind);
    assert s[..|s|] == s && (rest + behind)[..|rest + behind|] == rest + behind;
    EntryInFront(r, rest + behind, |s|);
    ConcatAssoc([r], recs[1..], ReadLog(behind));
    assert recs == [r] + recs[1..];
  }

  // ----- behind a torn entry -----

  ghost predicate Small(recs: seq<Blob>) {
    forall i :: 0 <= i < |recs| ==> |recs[i]| <= MAX_RECORD_SIZE
  }

  /** What a write of a record that stopped after `n` bytes leaves behind. */
  function TornEntry(r: Blob, n: nat): seq<byte> {
    if n < |Entry(r)| then Entry(r)[..n] else Entry(r)
  }

  /** These records, written later, are read back, behind the torn one if that
      became whole. */
  ghost predicate ReadBehind(r: Blob, n: nat, later: seq<Blob>) {
    ReadLog(TornEntry(r, n) + WriteLog(later)) == (if n < |Entry(r)| then [] else [r]) + later
  }

  lemma {:induction false} LittleEndianConcat(a: seq<byte>, b: seq<byte>)
    ensures FromLittleEndian(a + b) == FromLittleEndian(a) + Pow256(|a|) * FromLittleEndian(b)
  {
    if a == [] {
      assert a + b == b;
    } else {
      LittleEndianConcat(a[1..], b);
      assert (a + b)[1..] == a[1..] + b;
      assert Pow256(|a|) == 0x100 * Pow256(|a[1..]|);
      Distribute(FromLittleEndian(a[1..]), Pow256(|a[1..]|), FromLittleEndian(b));
    }
  }

  lemma Distribute(x: nat, y: nat, z: nat)
    ensures 0x100 * (x + y * z) == 0x100 * x + (0x100 * y) * z
  {
  }

  lemma {:induction false} PowPositive(k: nat)
    ensures Pow256(k) >= 1 && (k > 0 ==> Pow256(k) >= 0x100)
  {
    if k > 0 { PowPositive(k - 1); }
  }

  /** A torn length field runs into the next entry's; the length of one there is
      moved to a higher byte. */
  lemma MixedLength(a: seq<byte>, b: seq<byte>)
    requires a != [] && b != [] && b[0] == 1
    ensures FromLittleEndian(a + b) >= 0x100
  {
    LittleEndianConcat(a, b);
    PowPositive(|a|);
    assert FromLittleEndian(b) >= 1;
    AtLeast(Pow256(|a|), FromLittleEndian(b));
  }

  lemma AtLeast(x: nat, y: nat)
    requires y >= 1
    ensures x * y >= x
  {
  }

  lemma OneByteEntry()
    ensures Entry([0]) == LittleEndian(1, LENGTH_SIZE) + [0] && LittleEndian(1, LENGTH_SIZE)[0] == 1
  {
  }

  /** Torn inside the length field: a later record of one byte is not read. */
  lemma TornLength(r: Blob, n: nat)
    requires 0 < n < LENGTH_SIZE
    ensures ReadLog(Entry(r)[..n] + Entry([0])) == []
  {
    OneByteEntry();
    var a, one := Entry(r)[..n], LittleEndian(1, LENGTH_SIZE);
    var s := a + Entry([0]);
    assert s[..LENGTH_SIZE] == a + one[..LENGTH_SIZE - n];
    MixedLength(a, one[..LENGTH_SIZE - n]);
    assert |s| < LENGTH_SIZE + 0x100;
  }

  /** Torn behind the length field, or over the cap: what is read first, if
      anything, is as long as the torn record, whatever follows. */
  lemma TornBody(r: Blob, n: nat, behind: seq<byte>)
    requires LENGTH_SIZE <= n <= LENGTH_SIZE + |r| && 0 < |r| < TWO_64
    ensures var read := ReadLog(Entry(r)[..n] + behind); read == [] || |read[0]| == |r|
  {
    var field := LittleEndian(|r|, LENGTH_SIZE);
    LengthRoundTrip(|r|);
    BehindField(field, r, n, behind, Entry(r)[..n] + behind);
  }

  lemma BehindField(field: seq<byte>, r: Blob, n: nat, behind: seq<byte>, s: seq<byte>)
    requires |field| == LENGTH_SIZE <= n <= LENGTH_SIZE + |r| && s == (field + r)[..n] + behind
    requires FromLittleEndian(field) == |r|
    ensures var read := ReadLog(s); read == [] || |read[0]| == |r|
  {
    assert s[..LENGTH_SIZE] == field;
  }

  lemma WriteOne(x: Blob)
    ensures WriteLog([x]) == Entry(x)
  {
    var none: seq<Blob> := [];
    assert [x][..0] == none;
    assert WriteLog(none) + Entry(x) == Entry(x);
  }

  /** The input that shows the loss: one record, written whole behind the torn one. */
  lemma LostBehind(r: Blob, n: nat) returns (later: seq<Blob>)
    requires |r| < TWO_64 && n > 0 && (n < |Entry(r)| || |r| > MAX_RECORD_SIZE)
    ensures Small(later) && |later| == 1 && !ReadBehind(r, n, later)
  {
    if n < LENGTH_SIZE {
      later := [[0]];
      WriteOne([0]);
      TornLength(r, n);
    } else {
      later := [[]];
      WriteOne([]);
      var m := if n < |Entry(r)| then n else |Entry(r)|;
      assert TornEntry(r, n) == Entry(r)[..m];
      TornBody(r, m, Entry([]));
      var read := ReadLog(Entry(r)[..m] + Entry([]));
      if n >= |Entry(r)| { OversizedHides(r, Entry([])); }
    }
  }

  lemma OversizedHides(r: Blob, behind: seq<byte>)
    requires MAX_RECORD_SIZE < |r| < TWO_64
    ensures ReadLog(Entry(r) + behind) == []
  {
    var s := Entry(r) + behind;
    assert s[..|s|] == s;
    EntryInFront(r, behind, |s|);
  }

  /** Every list of later records is read back exactly when the write left nothing
      behind, or a whole entry within the cap. */
  lemma ReadBehindExactly(r: Blob, n: nat)
    requires |r| < TWO_64
    ensures (forall later | Small(later) :: ReadBehind(r, n, later)) <==>
            n == 0 || (|Entry(r)| <= n && |r| <= MAX_RECORD_SIZE)
  {
    if n == 0 {
      forall later | Small(later) ensures ReadBehind(r, n, later) {
        assert TornEntry(r, n) == [];
        assert TornEntry(r, n) + WriteLog(later) == WriteLog(later);
        ReadBackExactly(later);
      }
    } else if |Entry(r)| <= n && |r| <= MAX_RECORD_SIZE {
      forall later | Small(later) ensures ReadBehind(r, n, later) {
        ReadBackExactly(later);
        WriteOne(r);
        ReadInFront([r], WriteLog(later));
      }
    } else {
      var later := LostBehind(r, n);
    }
  }

  /** Reading undoes writing exactly when no record exceeds the cap. */
  lemma ReadBackExactly(recs: seq<Blob>)
    requires Sized(recs)
    ensures ReadLog(WriteLog(recs)) == recs <==> forall i :: 0 <= i < |recs| ==> |recs[i]| <= 104_857_600
  {
    var log := WriteLog(recs);
    assert log[..|log|] == log;
    var m := ReadCutLog(recs, |log|);
    if m < |recs| {
      assert recs == recs[..m + 1] + recs[m + 1..];
      WriteLogConcat(recs[..m + 1], recs[m + 1..]);
      assert |recs[m]| > MAX_RECORD_SIZE;
      assert |recs[..m]| < |recs|;
    } else {
      assert recs[..m] == recs;
    }
  }
}
