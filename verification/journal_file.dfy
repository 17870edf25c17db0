/**
 The journal file as text. `File.ReadLines` splits it at "\n", "\r" and
 "\r\n" (each one terminator) and yields no empty line after a final
 terminator; `File.AppendAllText` creates the file when it is absent and adds
 text to its end. An absent file is `None`.
 */
module JournalFile {
  import opened Wrappers
  import opened Seqs

  /** `Environment.NewLine` on Windows, where the form runs. */
  const NewLine: string := "\r\n"

  predicate IsLineBreak(c: char) {
    c == '\n' || c == '\r'
  }

  predicate HasNoLineBreak(s: string) {
    forall i :: 0 <= i < |s| ==> !IsLineBreak(s[i])
  }

  /** The text is empty or its last line is terminated. */
  predicate EndsAtLineBoundary(s: string) {
    |s| == 0 || IsLineBreak(s[|s| - 1])
  }

  /** Index of the first line terminator, or `|s|` if there is none. */
  function LineEnd(s: string): (n: nat)
    ensures n <= |s|
    ensures forall i :: 0 <= i < n ==> !IsLineBreak(s[i])
    ensures n < |s| ==> IsLineBreak(s[n])
    decreases |s|
  {
    if |s| == 0 || IsLineBreak(s[0]) then 0 else 1 + LineEnd(s[1..])
  }

  /** Width of the terminator at `n`: "\r\n" counts as one terminator. */
  function BreakWidth(s: string, n: nat): (w: nat)
    requires n < |s| && IsLineBreak(s[n])
  {
    if s[n] == '\r' && n + 1 < |s| && s[n + 1] == '\n' then 2 else 1
  }

  /** `File.ReadLines`: the lines of the text, without their terminators.
      Only the empty text has no line. */
  function Lines(s: string): (ls: seq<string>)
    ensures |ls| == 0 <==> |s| == 0
    ensures forall i :: 0 <= i < |ls| ==> HasNoLineBreak(ls[i])
    decreases |s|
  {
    if |s| == 0 then []
    else
      var n := LineEnd(s);
      if n == |s| then [s]
      else [s[..n]] + Lines(s[n + BreakWidth(s, n)..])
  }

  /** The text of `lines`, each one followed by `NewLine`. */
  function Terminated(lines: seq<string>): (s: string)
    ensures EndsAtLineBoundary(s)
  {
    if |lines| == 0 then []
    else Terminated(lines[..|lines| - 1]) + lines[|lines| - 1] + NewLine
  }

  /** `File.AppendAllText`. */
  function AppendAllText(file: Option<string>, text: string): (after: string)
    ensures |after| == |file.GetOr([])| + |text|
    ensures after[..|file.GetOr([])|] == file.GetOr([])
    ensures after[|file.GetOr([])|..] == text
  {
    file.GetOr([]) + text
  }

  lemma Regroup(a: string, b: string, c: string, d: string)
    ensures a + b + c + d == a + (b + c) + d
  {
    var x, y := a + b + c + d, a + (b + c) + d;
    assert |x| == |y|;
    forall i | 0 <= i < |x|
      ensures x[i] == y[i]
    {
    }
  }

  /** One unfolding of `Lines` at the terminator ending its first line. */
  lemma LinesAt(s: string, n: nat, w: nat)
    requires n == LineEnd(s) && n < |s| && w == BreakWidth(s, n)
    ensures Lines(s) == [s[..n]] + Lines(s[n + w..])
  {
    assert |s| != 0 && n != |s|;
  }

  /** Appending to a text that ends at a line boundary keeps its lines and adds
      those of the appended text, unless a "\r" ending the first text would
      pair up with a "\n" starting the second. */
  lemma {:induction false} LinesConcat(s: string, t: string)
    requires EndsAtLineBoundary(s)
    requires !(|s| > 0 && s[|s| - 1] == '\r' && |t| > 0 && t[0] == '\n')
    ensures Lines(s + t) == Lines(s) + Lines(t)
    decreases |s|
  {
    if |s| == 0 {
      assert s + t == t;
    } else {
      assert LineEnd(s) < |s| by {
        FirstLineOfConcat(s, t);
      }
      var n := LineEnd(s);
      var w := BreakWidth(s, n);
      var rest := s[n + w..];
      assert Lines(s) == [s[..n]] + Lines(rest) by {
        LinesAt(s, n, w);
      }
      assert Lines(s + t) == [s[..n]] + Lines(rest + t) by {
        FirstLineOfConcat(s, t);
        LinesAt(s + t, n, w);
      }
      assert Lines(rest + t) == Lines(rest) + Lines(t) by {
        FirstLineOfConcat(s, t);
        LinesConcat(rest, t);
      }
      ConcatAssoc([s[..n]], Lines(rest), Lines(t));
    }
  }

  /** The first line of `s + t` is that of `s` when `s` ends at a line boundary. */
  lemma FirstLineOfConcat(s: string, t: string)
    requires |s| > 0 && EndsAtLineBoundary(s)
    requires !(s[|s| - 1] == '\r' && |t| > 0 && t[0] == '\n')
    ensures LineEnd(s) < |s|
    ensures LineEnd(s + t) == LineEnd(s)
    ensures BreakWidth(s + t, LineEnd(s)) == BreakWidth(s, LineEnd(s))
    ensures (s + t)[..LineEnd(s)] == s[..LineEnd(s)]
    ensures (s + t)[LineEnd(s) + BreakWidth(s, LineEnd(s))..] == s[LineEnd(s) + BreakWidth(s, LineEnd(s))..] + t
    ensures var rest := s[LineEnd(s) + BreakWidth(s, LineEnd(s))..];
      && EndsAtLineBoundary(rest)
      && !(|rest| > 0 && rest[|rest| - 1] == '\r' && |t| > 0 && t[0] == '\n')
  {
    var n := LineEnd(s);
    LineEndPrefix(s, t);
    var w := BreakWidth(s, n);
    SlicesOfConcat(s, t, n);
    SlicesOfConcat(s, t, n + w);
    var rest := s[n + w..];
    if |rest| > 0 {
      assert rest[|rest| - 1] == s[|s| - 1];
    }
  }

  lemma SlicesOfConcat(s: string, t: string, k: nat)
    requires k <= |s|
    ensures (s + t)[..k] == s[..k]
    ensures (s + t)[k..] == s[k..] + t
  {
    var x, y := (s + t)[k..], s[k..] + t;
    assert |x| == |y|;
    forall i | 0 <= i < |x|
      ensures x[i] == y[i]
    {
    }
  }

  lemma LineEndPrefix(s: string, t: string)
    requires LineEnd(s) < |s|
    ensures LineEnd(s + t) == LineEnd(s)
    decreases |s|
  {
    if !IsLineBreak(s[0]) {
      assert (s + t)[1..] == s[1..] + t;
      LineEndPrefix(s[1..], t);
    }
  }

  /** A record without line breaks, terminated by `NewLine`, reads back as
      exactly one line. */
  lemma RecordIsOneLine(record: string)
    requires HasNoLineBreak(record)
    ensures Lines(record + NewLine) == [record]
  {
    var s := record + NewLine;
    assert LineEnd(s) == |record| by {
      LineEndStopsAtBreak(s, |record|);
    }
    assert BreakWidth(s, |record|) == 2;
    assert s[..|record|] == record;
    assert s[|record| + 2..] == [];
  }

  lemma {:induction false} LineEndStopsAtBreak(s: string, n: nat)
    requires n < |s| && IsLineBreak(s[n])
    requires forall i :: 0 <= i < n ==> !IsLineBreak(s[i])
    ensures LineEnd(s) == n
    decreases n
  {
    if n > 0 {
      LineEndStopsAtBreak(s[1..], n - 1);
    }
  }

  /** A non-empty text without line breaks is one unterminated line. */
  lemma SingleLine(s: string)
    requires |s| > 0 && HasNoLineBreak(s)
    ensures Lines(s) == [s]
  {
    assert LineEnd(s) == |s|;
  }

  /** A record without line breaks, appended with its terminator to a text
      ending at a line boundary, becomes exactly one new line. */
  lemma AppendRecord(s: string, record: string)
    requires EndsAtLineBoundary(s)
    requires HasNoLineBreak(record)
    ensures Lines(s + record + NewLine) == Lines(s) + [record]
  {
    assert s + record + NewLine == s + (record + NewLine);
    assert !(|record + NewLine| > 0 && (record + NewLine)[0] == '\n') by {
      if |record| > 0 {
        assert (record + NewLine)[0] == record[0];
      }
    }
    LinesConcat(s, record + NewLine);
    RecordIsOneLine(record);
  }

  lemma NoLineBreakConcat(a: string, b: string)
    requires HasNoLineBreak(a) && HasNoLineBreak(b)
    ensures HasNoLineBreak(a + b)
  {
    forall i | 0 <= i < |a + b|
      ensures !IsLineBreak((a + b)[i])
    {
      if i < |a| {
        assert (a + b)[i] == a[i];
      } else {
        assert (a + b)[i] == b[i - |a|];
      }
    }
  }

  /** An unterminated last line after a text ending at a line boundary is
      one more line. */
  lemma TornLastLine(prefix: string, torn: string)
    requires EndsAtLineBoundary(prefix)
    requires |torn| > 0 && HasNoLineBreak(torn)
    ensures Lines(prefix + torn) == Lines(prefix) + [torn]
  {
    SingleLine(torn);
    LinesConcat(prefix, torn);
  }

  /** A record appended after an unterminated last line is glued onto it:
      the two read back as one line. */
  lemma RecordAfterTornLine(prefix: string, torn: string, record: string)
    requires EndsAtLineBoundary(prefix)
    requires |torn| > 0 && HasNoLineBreak(torn) && HasNoLineBreak(record)
    ensures Lines(prefix + torn + record + NewLine) == Lines(prefix) + [torn + record]
  {
    var glued := torn + record;
    NoLineBreakConcat(torn, record);
    Regroup(prefix, torn, record, NewLine);
    AppendRecord(prefix, glued);
  }

  /** Lines without line breaks, written one after the other with their
      terminators, are read back exactly. */
  lemma {:induction false} LinesOfTerminated(lines: seq<string>)
    requires forall i :: 0 <= i < |lines| ==> HasNoLineBreak(lines[i])
    ensures Lines(Terminated(lines)) == lines
    decreases |lines|
  {
    if |lines| > 0 {
      var init := lines[..|lines| - 1];
      LinesOfTerminated(init);
      AppendRecord(Terminated(init), lines[|lines| - 1]);
    }
  }

  /** Terminating an unterminated last line does not change the lines. */
  lemma {:induction false} TerminatingLastLine(s: string)
    requires !EndsAtLineBoundary(s)
    ensures Lines(s + NewLine) == Lines(s)
    decreases |s|
  {
    var n := LineEnd(s);
    var s' := s + NewLine;
    if n == |s| {
      LineEndStopsAtBreak(s', |s|);
      assert BreakWidth(s', n) == 2;
      assert s'[..n] == s;
      assert s'[n + 2..] == [];
    } else {
      LineEndPrefix(s, NewLine);
      var w := BreakWidth(s, n);
      assert n + w < |s| by {
        assert !IsLineBreak(s[|s| - 1]);
      }
      assert BreakWidth(s', n) == w;
      var rest := s[n + w..];
      assert s'[n + w..] == rest + NewLine;
      assert s'[..n] == s[..n];
      assert !EndsAtLineBoundary(rest) by {
        assert rest[|rest| - 1] == s[|s| - 1];
      }
      TerminatingLastLine(rest);
      LinesAt(s, n, w);
      LinesAt(s', n, w);
    }
  }
}
