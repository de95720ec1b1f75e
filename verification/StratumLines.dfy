/** Lines out of a byte stream: what `STRATUM_V1_receive_jsonrpc_line` promises, said of the stream alone. */
module StratumLines {

  const MAX_LINE: nat := 16384

  datatype Outcome = Line(text: string) | Overlong | Ended

  /** The first newline, or the length if there is none. */
  function NewlineAt(s: string): (i: nat)
    ensures i <= |s| && (i < |s| ==> s[i] == '\n')
    ensures forall j :: 0 <= j < i ==> s[j] != '\n'
  {
    if s == "" || s[0] == '\n' then 0 else 1 + NewlineAt(s[1..])
  }

  lemma NewlineAtIs(s: string, i: nat)
    requires i <= |s| && (i < |s| ==> s[i] == '\n')
    requires forall j :: 0 <= j < i ==> s[j] != '\n'
    ensures NewlineAt(s) == i
  {
  }

  /** One call on a stream of which `s` is left: a line of at most `MAX_LINE` bytes, the loss of
      `MAX_LINE + 1` bytes without a newline, or the end of the stream. */
  function Receive(s: string): (r: (Outcome, string)) {
    var i := NewlineAt(s);
    if i < |s| && i <= MAX_LINE then (Line(s[..i]), s[i + 1..])
    else if |s| > MAX_LINE then (Overlong, s[MAX_LINE + 1..])
    else (Ended, "")
  }

  /** Calls until the stream ends. */
  function Outcomes(s: string): seq<Outcome>
    decreases |s|
  {
    var (o, rest) := Receive(s);
    if o.Ended? then [Ended] else [o] + Outcomes(rest)
  }

  ghost predicate OneLine(s: string) {
    forall i :: 0 <= i < |s| ==> s[i] != '\n'
  }

  /** `lines` as a sender writes them. */
  function Joined(lines: seq<string>): string {
    if lines == [] then "" else lines[0] + "\n" + Joined(lines[1..])
  }

  function AsLines(lines: seq<string>): seq<Outcome> {
    if lines == [] then [] else [Line(lines[0])] + AsLines(lines[1..])
  }

  /** A line that fits is the next thing received, and only it is consumed. */
  lemma ShortLine(l: string, later: string)
    requires OneLine(l) && |l| <= MAX_LINE
    ensures Receive(l + ("\n" + later)) == (Line(l), later)
  {
    var s := l + ("\n" + later);
    NewlineAtIs(s, |l|);
    assert s[..|l|] == l && s[|l| + 1..] == later;
  }

  ghost predicate Fit(lines: seq<string>) {
    forall l <- lines :: OneLine(l) && |l| <= MAX_LINE
  }

  lemma FitHead(lines: seq<string>)
    requires Fit(lines) && lines != []
    ensures OneLine(lines[0]) && |lines[0]| <= MAX_LINE && Fit(lines[1..])
  {
  }

  /** Lines that fit come out one by one, whatever follows them. */
  lemma {:induction false} LinesReceived(lines: seq<string>, rest: string)
    requires Fit(lines)
    ensures Outcomes(Joined(lines) + rest) == AsLines(lines) + Outcomes(rest)
  {
    hide Receive, Fit, OneLine;
    if lines == [] {
      assert "" + rest == rest;
    } else {
      FitHead(lines);
      var l, later := lines[0], Joined(lines[1..]) + rest;
      assert Joined(lines) + rest == l + ("\n" + later);
      ShortLine(l, later);
      LinesReceived(lines[1..], rest);
    }
  }

  /** A last piece without a newline is never a line. */
  lemma LastPiece(s: string)
    requires OneLine(s)
    ensures Outcomes(s)[0] == if |s| > MAX_LINE then Overlong else Ended
  {
    NewlineAtIs(s, |s|);
  }

  /** A line that does not fit costs exactly its first `MAX_LINE + 1` bytes. */
  lemma LongLine(s: string, rest: string)
    requires OneLine(s) && |s| > MAX_LINE
    ensures Receive(s + rest) == (Overlong, s[MAX_LINE + 1..] + rest)
  {
    var t := s + rest;
    var i := NewlineAt(t);
    assert forall j :: 0 <= j < |s| ==> t[j] == s[j];
    assert t[MAX_LINE + 1..] == s[MAX_LINE + 1..] + rest;
  }

  /** The newline split of a stream, read byte by byte. */
  function Split(s: string): (r: (seq<string>, string)) {
    if s == "" then ([], "")
    else
      var (lines, last) := Split(s[1..]);
      if s[0] == '\n' then ([""] + lines, last)
      else if lines == [] then ([], [s[0]] + last)
      else ([[s[0]] + lines[0]] + lines[1..], last)
  }

  ghost predicate AllOneLine(lines: seq<string>) {
    forall l <- lines :: OneLine(l)
  }

  /** Every stream is its lines and a last piece. */
  lemma {:induction false} SplitJoins(s: string)
    ensures var (lines, last) := Split(s);
      Joined(lines) + last == s && OneLine(last) && AllOneLine(lines)
  {
    if s == "" {
    } else {
      SplitJoins(s[1..]);
      var (lines, last) := Split(s[1..]);
      assert s == [s[0]] + s[1..];
      if s[0] == '\n' {
        assert Joined([""] + lines) == "\n" + Joined(lines) by {
          assert ([""] + lines)[1..] == lines;
        }
      } else if lines != [] {
        var first := [s[0]] + lines[0];
        assert ([first] + lines[1..])[1..] == lines[1..];
        assert Joined([first] + lines[1..]) == [s[0]] + Joined(lines);
        assert OneLine(lines[0]) && OneLine(first);
      }
    }
  }

  /** What the calls return is the newline split of the stream, up to the first line that is too long. */
  lemma SplitReceived(s: string, k: nat)
    requires var (lines, last) := Split(s); k <= |lines| && forall l <- lines[..k] :: |l| <= MAX_LINE
    ensures var (lines, last) := Split(s);
      && k < |Outcomes(s)| && Outcomes(s)[..k] == AsLines(lines[..k])
      && (k < |lines| ==> Outcomes(s)[k] == if |lines[k]| > MAX_LINE then Overlong else Line(lines[k]))
      && (k == |lines| ==> Outcomes(s)[k] == if |last| > MAX_LINE then Overlong else Ended)
  {
    hide Outcomes, Joined, OneLine, AsLines, Split;
    var (lines, last) := Split(s);
    SplitJoins(s);
    JoinedConcat(lines, k);
    var rest := Joined(lines[k..]) + last;
    assert Joined(lines[..k]) + rest == s;
    LinesReceived(lines[..k], rest);
    AsLinesLength(lines[..k]);
    OutcomesNonempty(rest);
    NextReceived(lines[k..], last);
  }

  lemma OutcomesNonempty(s: string)
    ensures Outcomes(s) != []
  {
    hide Receive;
  }

  /** The first outcome on the lines that are left. */
  lemma NextReceived(lines: seq<string>, last: string)
    requires AllOneLine(lines) && OneLine(last)
    ensures var o := Outcomes(Joined(lines) + last);
      && o != []
      && (lines == [] ==> o[0] == if |last| > MAX_LINE then Overlong else Ended)
      && (lines != [] ==> o[0] == if |lines[0]| > MAX_LINE then Overlong else Line(lines[0]))
  {
    hide Receive, OneLine;
    if lines == [] {
      assert "" + last == last;
      LastPiece(last);
    } else {
      var l, later := lines[0], Joined(lines[1..]) + last;
      assert OneLine(l);
      assert Joined(lines) + last == l + ("\n" + later);
      if |l| > MAX_LINE {
        LongLine(l, "\n" + later);
      } else {
        ShortLine(l, later);
      }
    }
  }

  lemma {:induction false} JoinedConcat(lines: seq<string>, k: nat)
    requires k <= |lines|
    ensures Joined(lines) == Joined(lines[..k]) + Joined(lines[k..])
  {
    if k == 0 {
      assert lines[..0] == [] && lines[0..] == lines;
    } else {
      JoinedConcat(lines[1..], k - 1);
      assert lines[..k][1..] == lines[1..][..k - 1] && lines[k..] == lines[1..][k - 1..];
    }
  }

  lemma {:induction false} AsLinesLength(lines: seq<string>)
    ensures |AsLines(lines)| == |lines|
  {
    if lines == [] {
    } else {
      AsLinesLength(lines[1..]);
    }
  }
}
