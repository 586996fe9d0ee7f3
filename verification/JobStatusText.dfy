/** The text forms of a job status and of a QoS level in the SQL accounting store. */
module JobStatusText {
  import opened Common

  datatype JobStatus = Pending | Running | Completed(code: int) | Failed(error: string) | Killed

  /** Rust's `trim_start_matches`: drops the prefix as often as it occurs. */
  function TrimStart(s: string, p: string): (r: string)
    requires p != ""
    ensures |r| <= |s| && (StartsWith(s, p) ==> |r| <= |s| - |p|) && (!StartsWith(s, p) ==> r == s)
    decreases |s|
  {
    if StartsWith(s, p) then TrimStart(s[|p|..], p) else s
  }

  /** Rust's `trim_end_matches` with one character. */
  function TrimEnd(s: string, c: char): (r: string)
    ensures |r| <= |s| && (s != "" && s[|s| - 1] == c ==> |r| < |s|)
    decreases |s|
  {
    if s != "" && s[|s| - 1] == c then TrimEnd(s[..|s| - 1], c) else s
  }

  function Digits(n: nat): string {
    if n < 10 then ["0123456789"[n]] else Digits(n / 10) + ["0123456789"[n % 10]]
  }

  /** What a decimal numeral says. */
  function ValueOf(s: string): nat {
    if s == "" then 0
    else
      var c := s[|s| - 1];
      10 * ValueOf(s[..|s| - 1]) + (if '0' <= c <= '9' then (c as int) - ('0' as int) else 0)
  }

  lemma DigitIs(n: nat)
    requires n < 10
    ensures var c := "0123456789"[n]; '0' <= c <= '9' && (c as int) - ('0' as int) == n
  {
    assert n == 0 || n == 1 || n == 2 || n == 3 || n == 4 || n == 5 || n == 6 || n == 7 || n == 8 || n == 9;
  }

  /** Codes are written in decimal, without superfluous zeros. */
  lemma {:induction false} DigitsSay(n: nat)
    ensures ValueOf(Digits(n)) == n && Digits(n) != "" && (n > 0 ==> Digits(n)[0] != '0')
    ensures forall i :: 0 <= i < |Digits(n)| ==> '0' <= Digits(n)[i] <= '9'
  {
    var d := Digits(n);
    DigitIs(n % 10);
    if n >= 10 {
      DigitsSay(n / 10);
      assert d[..|d| - 1] == Digits(n / 10);
    } else {
      assert d[..0] == "";
    }
  }

  function FormatCode(code: int): string {
    if code < 0 then "-" + Digits(-code) else Digits(code)
  }

  function FormatStatus(st: JobStatus): string {
    match st
    case Pending => "Pending"
    case Running => "Running"
    case Completed(code) => "Completed(" + FormatCode(code) + ")"
    case Failed(err) => "Failed(" + err + ")"
    case Killed => "Cancelled"
  }

  function ParseJobStatus(s: string, exitCode: Option<int>): JobStatus {
    if s == "Pending" then Pending
    else if s == "Running" then Running
    else if s == "Cancelled" || s == "Killed" then Killed
    else if StartsWith(s, "Failed") then Failed(TrimEnd(TrimStart(s, "Failed("), ')'))
    else Completed(if exitCode.Some? then exitCode.value else 0)
  }

  lemma FailedText(err: string)
    ensures TrimStart("Failed(" + err + ")", "Failed(") == TrimStart(err + ")", "Failed(")
    ensures StartsWith(err + ")", "Failed(") <==> StartsWith(err, "Failed(")
    ensures TrimEnd(err + ")", ')') == TrimEnd(err, ')')
  {
    var s := "Failed(" + err + ")";
    assert s[..7] == "Failed(" && s[7..] == err + ")";
    if |err| >= 7 { assert (err + ")")[..7] == err[..7]; }
    else if |err| == 6 { assert (err + ")")[6] == ')' && "Failed("[6] == '('; }
    assert (err + ")")[..|err|] == err;
  }

  lemma BeginsWithF(s: string)
    requires s != "" && s[0] == 'F'
    ensures s != "Pending" && s != "Running" && s != "Cancelled" && s != "Killed"
  {
    assert "Pending"[0] == 'P' && "Running"[0] == 'R' && "Cancelled"[0] == 'C' && "Killed"[0] == 'K';
  }

  lemma ParsesAsFailed(err: string, exitCode: Option<int>)
    ensures ParseJobStatus("Failed(" + err + ")", exitCode) ==
            Failed(TrimEnd(TrimStart(err + ")", "Failed("), ')'))
  {
    var s := "Failed(" + err + ")";
    FailedText(err);
    assert s[..6] == "Failed";
    BeginsWithF(s);
  }

  lemma ParsesAsCompleted(text: string, exitCode: Option<int>)
    ensures ParseJobStatus("Completed(" + text + ")", exitCode) ==
            Completed(if exitCode.Some? then exitCode.value else 0)
  {
    var s := "Completed(" + text + ")";
    assert s[0] == 'C' && s[1] == 'o';
    assert "Cancelled"[1] == 'a';
  }

  /** The text of a completed job names its code, and that of a killed one reads as
      such under both of its names. */
  lemma EndedTexts(code: nat, exitCode: Option<int>)
    ensures FormatStatus(Completed(code)) == "Completed(" + Digits(code) + ")"
    ensures code > 0 ==> FormatStatus(Completed(-(code as int))) == "Completed(" + ("-" + Digits(code)) + ")"
    ensures ParseJobStatus("Cancelled", exitCode) == Killed && ParseJobStatus("Killed", exitCode) == Killed
  {
  }

  predicate PlainError(err: string) {
    !StartsWith(err, "Failed(") && (err == "" || err[|err| - 1] != ')')
  }

  lemma FailedRoundTrip(err: string, exitCode: Option<int>)
    ensures ParseJobStatus(FormatStatus(Failed(err)), exitCode) == Failed(err) <==> PlainError(err)
  {
    ParsesAsFailed(err, exitCode);
    FailedText(err);
    if StartsWith(err, "Failed(") { assert |TrimStart(err + ")", "Failed(")| < |err|; }
  }

  /** What a caller can check to know that a status survives the database. */
  predicate Survives(st: JobStatus, exitCode: Option<int>) {
    match st
    case Failed(err) => PlainError(err)
    case Completed(code) => code == (if exitCode.Some? then exitCode.value else 0)
    case _ => true
  }

  /** Storing a status and reading it back gives the same status exactly when
      an error text has no inner "Failed(" in front and no ")" at its end, and a
      completion code is the recorded exit code. */
  lemma StatusRoundTrip(st: JobStatus, exitCode: Option<int>)
    ensures ParseJobStatus(FormatStatus(st), exitCode) == st <==> Survives(st, exitCode)
  {
    match st
    case Failed(err) => FailedRoundTrip(err, exitCode);
    case Completed(code) => ParsesAsCompleted(FormatCode(code), exitCode);
    case _ =>
  }

  // ----- QoS levels -----

  datatype Qos = Background | Preemptible | Production | Interactive

  function FormatQos(q: Qos): string {
    match q
    case Interactive => "Interactive"
    case Production => "Production"
    case Preemptible => "Preemptible"
    case Background => "Background"
  }

  function ParseQosLevel(s: string): Qos {
    if s == "Interactive" then Interactive
    else if s == "Preemptible" then Preemptible
    else if s == "Background" then Background
    else Production
  }

  lemma QosBack(q: Qos)
    ensures ParseQosLevel(FormatQos(q)) == q
  {
  }
}
