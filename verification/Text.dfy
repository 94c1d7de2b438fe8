/** The textual identities of usage reports and adapter requests. */
module Text {
  import opened Types

  predicate IsDigit(c: char) {
    '0' <= c <= '9'
  }

  function Digit(d: nat): (c: char)
    requires d < 10
    ensures IsDigit(c)
  {
    "0123456789"[d]
  }

  predicate AllDigits(s: string) {
    forall i | 0 <= i < |s| :: IsDigit(s[i])
  }

  /** What an output stream prints for an unsigned integer. */
  function Decimal(n: nat): (s: string)
    ensures s != [] && AllDigits(s)
  {
    if n < 10 then [Digit(n)] else Decimal(n / 10) + [Digit(n % 10)]
  }

  lemma {:induction false} DecimalInjective(m: nat, n: nat)
    requires Decimal(m) == Decimal(n)
    ensures m == n
    decreases m
  {
    var s, t := Decimal(m), Decimal(n);
    assert s[|s| - 1] == Digit(m % 10) && t[|t| - 1] == Digit(n % 10);
    if m >= 10 && n >= 10 {
      assert s[..|s| - 1] == Decimal(m / 10) && t[..|t| - 1] == Decimal(n / 10);
      DecimalInjective(m / 10, n / 10);
    }
  }

  /** `i` is the position of the last character that is not a digit. */
  ghost predicate LastMark(s: string, i: nat) {
    i < |s| && !IsDigit(s[i]) && forall k | i < k < |s| :: IsDigit(s[k])
  }

  lemma MarkPosition(head: string, mark: string, n: nat)
    requires mark != [] && !IsDigit(mark[|mark| - 1])
    ensures LastMark(head + mark + Decimal(n), |head| + |mark| - 1)
  {
    var s, at := head + mark + Decimal(n), |head| + |mark| - 1;
    assert s[at] == mark[|mark| - 1];
    forall k | at < k < |s|
      ensures IsDigit(s[k])
    {
      assert s[k] == Decimal(n)[k - at - 1];
    }
  }

  // A number written after a non-digit can be read back from the right, whatever stands before it.
  lemma NumberAfterMark(head: string, head': string, mark: string, n: nat, n': nat)
    requires mark != [] && !IsDigit(mark[|mark| - 1])
    requires head + mark + Decimal(n) == head' + mark + Decimal(n')
    ensures head == head' && n == n'
  {
    var s := head + mark + Decimal(n);
    MarkPosition(head, mark, n);
    MarkPosition(head', mark, n');
    var at := |head| + |mark|;
    assert |head| == |head'|;
    assert s[..|head|] == head && s[..|head'|] == head';
    assert s[at..] == Decimal(n) && (head' + mark + Decimal(n'))[at..] == Decimal(n');
    DecimalInjective(n, n');
  }

  function AdapterKey(updateId: string, version: uint64): string {
    updateId + ":" + Decimal(version)
  }

  // Distinct requests have distinct keys, even when an update ID itself contains a colon.
  lemma AdapterKeyInjective(updateId: string, version: uint64, updateId': string, version': uint64)
    ensures AdapterKey(updateId, version) == AdapterKey(updateId', version') <==>
            updateId == updateId' && version == version'
  {
    if AdapterKey(updateId, version) == AdapterKey(updateId', version') {
      NumberAfterMark(updateId, updateId', ":", version, version');
    }
  }

  function UrrPart(sessionId: string, urrId: uint32): string {
    sessionId + "-urr-" + Decimal(urrId)
  }

  function GenerationPart(sessionId: string, urrId: uint32, generation: uint32): string {
    UrrPart(sessionId, urrId) + "-g" + Decimal(generation)
  }

  function ReportId(sessionId: string, urrId: uint32, generation: uint32, version: uint64): (id: string)
    ensures id != ""
  {
    GenerationPart(sessionId, urrId, generation) + "-v" + Decimal(version)
  }

  // A report ID names one (session, URR, generation, version), even when a session ID imitates the format.
  lemma ReportIdInjective(
      s: string, u: uint32, g: uint32, v: uint64, s': string, u': uint32, g': uint32, v': uint64)
    ensures ReportId(s, u, g, v) == ReportId(s', u', g', v') <==> s == s' && u == u' && g == g' && v == v'
  {
    if ReportId(s, u, g, v) == ReportId(s', u', g', v') {
      NumberAfterMark(GenerationPart(s, u, g), GenerationPart(s', u', g'), "-v", v, v');
      NumberAfterMark(UrrPart(s, u), UrrPart(s', u'), "-g", g, g');
      NumberAfterMark(s, s', "-urr-", u, u');
    }
  }

  // ----- The text itself

  /** The number a decimal text denotes. */
  function ValueOf(s: string): int {
    if s == [] then 0 else 10 * ValueOf(s[..|s| - 1]) + (s[|s| - 1] as int - '0' as int)
  }

  // The text of a number denotes it, without leading zeros.
  lemma {:induction false} DecimalDenotes(n: nat)
    ensures ValueOf(Decimal(n)) == n
    ensures n > 0 ==> Decimal(n)[0] != '0'
  {
    if n < 10 {
      assert Decimal(n)[..0] == [];
    } else {
      DecimalDenotes(n / 10);
      assert Decimal(n)[..|Decimal(n)| - 1] == Decimal(n / 10);
    }
  }

  // The format of a report ID and of a request key.
  lemma IdentityFormats(sessionId: string, updateId: string)
    ensures ReportId(sessionId, 12, 3, 40) == sessionId + "-urr-12-g3-v40"
    ensures AdapterKey(updateId, 17) == updateId + ":17"
  {
    assert Decimal(12) == "12" && Decimal(40) == "40" && Decimal(17) == "17" && Decimal(3) == "3";
    assert ReportId(sessionId, 12, 3, 40) == sessionId + ("-urr-12" + "-g3" + "-v40");
  }
}
