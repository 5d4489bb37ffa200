/** The manual-file branch of `get_playfab_ids`: the file is read in text
    mode, and every line that is not blank gives one id, stripped of
    surrounding whitespace, in file order. */
module IdSource {
  import opened Optional
  import opened Text

  predicate IsLineBreak(c: char)
  {
    c == '\n' || c == '\r'
  }

  predicate NoBreaks(s: string)
  {
    forall i :: 0 <= i < |s| ==> !IsLineBreak(s[i])
  }

  /** The universal-newline translation of text-mode reading: `\r\n` and a
      lone `\r` both become `\n`. */
  function TranslateNewlines(s: string): (t: string)
    ensures '\r' !in t
  {
    if |s| == 0 then ""
    else if s[0] == '\r' then
      if |s| >= 2 && s[1] == '\n' then "\n" + TranslateNewlines(s[2..])
      else "\n" + TranslateNewlines(s[1..])
    else [s[0]] + TranslateNewlines(s[1..])
  }

  /** `t` cut at every `\n`; the pieces keep every other character of `t`. */
  function Segments(t: string): (ps: seq<string>)
    ensures |ps| >= 1
    ensures forall i :: 0 <= i < |ps| ==> '\n' !in ps[i]
    ensures '\r' !in t ==> forall i :: 0 <= i < |ps| ==> '\r' !in ps[i]
  {
    if |t| == 0 then [""]
    else
      var rest := Segments(t[1..]);
      assert '\r' !in t ==> '\r' !in t[1..];
      if t[0] == '\n' then [""] + rest
      else [[t[0]] + rest[0]] + rest[1..]
  }

  /** The lines `for line in f` yields, without their terminators (which
      `strip` removes anyway); a terminator at the very end of the file
      does not start another line. */
  function Lines(content: string): (ls: seq<string>)
    ensures forall i :: 0 <= i < |ls| ==> NoBreaks(ls[i])
  {
    var ps := Segments(TranslateNewlines(content));
    if ps[|ps| - 1] == "" then ps[..|ps| - 1] else ps
  }

  /** Pieces put back together with `\n` between them. */
  function Join(ps: seq<string>): string
    requires |ps| >= 1
  {
    if |ps| == 1 then ps[0] else ps[0] + "\n" + Join(ps[1..])
  }

  /** Cutting at newlines loses nothing: the pieces join back to the text. */
  lemma {:induction false} JoinSegments(t: string)
    ensures Join(Segments(t)) == t
  {
    if |t| > 0 {
      var rest := Segments(t[1..]);
      JoinSegments(t[1..]);
      if t[0] == '\n' {
        assert ([""] + rest)[1..] == rest;
      } else {
        JoinConsChar(t[0], rest[0], rest[1..]);
        assert [rest[0]] + rest[1..] == rest;
      }
    }
  }

  lemma JoinConsChar(c: char, p0: string, rest: seq<string>)
    ensures Join([[c] + p0] + rest) == [c] + Join([p0] + rest)
  {
    var head := [c] + p0;
    assert ([head] + rest)[1..] == rest;
    assert ([p0] + rest)[1..] == rest;
    if |rest| > 0 {
      var j := "\n" + Join(rest);
      assert head + "\n" + Join(rest) == head + j;
      assert p0 + "\n" + Join(rest) == p0 + j;
      assert head + j == [c] + (p0 + j);
    }
  }

  /** Text without line breaks is read as it is. */
  lemma TranslateNoBreaks(l: string)
    requires NoBreaks(l)
    ensures TranslateNewlines(l) == l
  {
    TranslatePrefix(l, "");
    assert l + "" == l;
  }

  predicate IsTerminator(eol: string)
  {
    eol == "\n" || eol == "\r\n" || eol == "\r"
  }

  /** A file made of `ls`, line `k` followed by the terminator `eols[k]`. */
  function Terminated(ls: seq<string>, eols: seq<string>): string
    requires |eols| == |ls|
  {
    if |ls| == 0 then "" else ls[0] + eols[0] + Terminated(ls[1..], eols[1..])
  }

  /** Lines and terminators that read back as written: break-free lines,
      real terminators, and no lone `\r` directly followed by the `\n` of an
      empty line, which would read as one `\r\n`. */
  predicate Separated(ls: seq<string>, eols: seq<string>)
    requires |eols| == |ls|
  {
    |ls| == 0 ||
    (&& NoBreaks(ls[0])
     && IsTerminator(eols[0])
     && (eols[0] == "\r" && |ls| > 1 && ls[1] == "" ==> eols[1] != "\n")
     && Separated(ls[1..], eols[1..]))
  }

  lemma {:induction false} SeparatedNoBreaks(ls: seq<string>, eols: seq<string>)
    requires |eols| == |ls| && Separated(ls, eols)
    ensures forall k :: 0 <= k < |ls| ==> NoBreaks(ls[k])
  {
    if |ls| > 0 {
      SeparatedNoBreaks(ls[1..], eols[1..]);
      forall k | 1 <= k < |ls| ensures NoBreaks(ls[k]) {
        assert ls[k] == ls[1..][k - 1];
      }
    }
  }

  lemma TranslateLine(l: string, eol: string, rest: string)
    requires NoBreaks(l) && IsTerminator(eol)
    requires eol == "\r" ==> rest == [] || rest[0] != '\n'
    ensures TranslateNewlines(l + eol + rest) == l + "\n" + TranslateNewlines(rest)
  {
    assert l + eol + rest == l + (eol + rest);
    TranslatePrefix(l, eol + rest);
    TranslateTerminator(eol, rest);
  }

  /** Break-free text at the front is read as it is. */
  lemma {:induction false} TranslatePrefix(l: string, x: string)
    requires NoBreaks(l)
    ensures TranslateNewlines(l + x) == l + TranslateNewlines(x)
  {
    if |l| > 0 {
      var tail := l[1..] + x;
      assert l + x == [l[0]] + tail;
      NoBreaksTail(l);
      TranslateCons(l[0], tail);
      TranslatePrefix(l[1..], x);
      var u := TranslateNewlines(x);
      assert l + u == [l[0]] + (l[1..] + u);
    } else {
      assert l + x == x;
    }
  }

  lemma NoBreaksTail(l: string)
    requires NoBreaks(l) && |l| > 0
    ensures !IsLineBreak(l[0]) && NoBreaks(l[1..])
  {
    forall i | 0 <= i < |l| - 1 ensures !IsLineBreak(l[1..][i]) {
      assert l[1..][i] == l[i + 1];
    }
  }

  lemma TranslateTerminator(eol: string, rest: string)
    requires IsTerminator(eol)
    requires eol == "\r" ==> rest == [] || rest[0] != '\n'
    ensures TranslateNewlines(eol + rest) == "\n" + TranslateNewlines(rest)
  {
    if eol == "\r\n" {
      assert (eol + rest)[2..] == rest;
    } else {
      assert (eol + rest)[1..] == rest;
    }
  }

  lemma TranslateCons(c: char, x: string)
    requires !IsLineBreak(c)
    ensures TranslateNewlines([c] + x) == [c] + TranslateNewlines(x)
  {
    assert ([c] + x)[1..] == x;
  }

  /** Text-mode reading turns every terminator of such a file into `\n`. */
  lemma {:induction false} TranslateTerminated(ls: seq<string>, eols: seq<string>, last: string)
    requires |eols| == |ls| && Separated(ls, eols)
    requires NoBreaks(last)
    ensures TranslateNewlines(Terminated(ls, eols) + last) == Join(ls + [last])
  {
    if |ls| == 0 {
      assert Terminated(ls, eols) + last == last;
      TranslateNoBreaks(last);
    } else {
      var rest := Terminated(ls[1..], eols[1..]) + last;
      assert Terminated(ls, eols) + last == ls[0] + eols[0] + rest;
      if eols[0] == "\r" && rest != [] {
        FirstCharOfRest(ls[1..], eols[1..], last);
      }
      TranslateLine(ls[0], eols[0], rest);
      TranslateTerminated(ls[1..], eols[1..], last);
      assert (ls + [last])[1..] == ls[1..] + [last];
    }
  }

  /** What follows a lone `\r` in such a file never starts with `\n`. */
  lemma FirstCharOfRest(ls: seq<string>, eols: seq<string>, last: string)
    requires |eols| == |ls| && Separated(ls, eols) && NoBreaks(last)
    requires |ls| > 0 && ls[0] == "" ==> eols[0] != "\n"
    requires Terminated(ls, eols) + last != []
    ensures (Terminated(ls, eols) + last)[0] != '\n'
  {
    if |ls| == 0 {
      assert !IsLineBreak(last[0]);
    } else if ls[0] != "" {
      assert !IsLineBreak(ls[0][0]);
    }
  }

  lemma {:induction false} SegmentsLine(l: string, rest: string)
    requires '\n' !in l
    ensures Segments(l + "\n" + rest) == [l] + Segments(rest)
  {
    if |l| == 0 {
      assert l + "\n" + rest == "\n" + rest;
      assert ("\n" + rest)[1..] == rest;
    } else {
      assert (l + "\n" + rest)[1..] == l[1..] + "\n" + rest;
      assert '\n' !in l[1..];
      SegmentsLine(l[1..], rest);
      assert [l[0]] + l[1..] == l;
    }
  }

  lemma {:induction false} SegmentsOfLine(l: string)
    requires '\n' !in l
    ensures Segments(l) == [l]
  {
    if |l| > 0 {
      assert '\n' !in l[1..];
      SegmentsOfLine(l[1..]);
      assert [l[0]] + l[1..] == l;
    }
  }

  /** Joining newline-free pieces and cutting again gives the pieces back. */
  lemma {:induction false} SegmentsJoin(ps: seq<string>)
    requires |ps| >= 1
    requires forall k :: 0 <= k < |ps| ==> '\n' !in ps[k]
    ensures Segments(Join(ps)) == ps
  {
    if |ps| == 1 {
      SegmentsOfLine(ps[0]);
    } else {
      assert '\n' !in ps[0];
      SegmentsLine(ps[0], Join(ps[1..]));
      SegmentsJoin(ps[1..]);
    }
  }

  /** All files of whole lines: a file of lines each ended by its own
      terminator, `\n`, `\r\n` or `\r` in any mix, followed by a last line
      with or without a terminator, reads back as exactly those lines. */
  lemma LinesOfFile(ls: seq<string>, eols: seq<string>, last: string)
    requires |eols| == |ls| && Separated(ls, eols)
    requires NoBreaks(last)
    ensures Lines(Terminated(ls, eols) + last) == if last == "" then ls else ls + [last]
  {
    var ps := ls + [last];
    TranslateTerminated(ls, eols, last);
    SeparatedNoBreaks(ls, eols);
    forall k | 0 <= k < |ps| ensures '\n' !in ps[k] {
      assert NoBreaks(ps[k]);
      assert forall i :: 0 <= i < |ps[k]| ==> ps[k][i] != '\n';
    }
    SegmentsJoin(ps);
    assert ps[..|ps| - 1] == ls;
  }

  /** Example: a file without a final newline. */
  lemma LinesExample()
    ensures Lines("a\nb") == ["a", "b"]
  {
    assert NoBreaks("a") && NoBreaks("b");
    assert "a\nb" == Terminated(["a"], ["\n"]) + "b";
    LinesOfFile(["a"], ["\n"], "b");
  }

  /** Example: a file mixing the three conventions. */
  lemma MixedLinesExample()
    ensures Lines("a\r\nb\nc\r") == ["a", "b", "c"]
  {
    var ls, eols := ["a", "b", "c"], ["\r\n", "\n", "\r"];
    assert NoBreaks("a") && NoBreaks("b") && NoBreaks("c");
    assert Separated(ls, eols) by {
      assert Separated(["c"], ["\r"]) by {
        assert ["c"][1..] == [] && ["\r"][1..] == [];
      }
      assert Separated(["b", "c"], ["\n", "\r"]) by {
        assert ["b", "c"][1..] == ["c"] && ["\n", "\r"][1..] == ["\r"];
      }
      assert ls[1..] == ["b", "c"] && eols[1..] == ["\n", "\r"];
    }
    assert "a\r\nb\nc\r" == Terminated(ls, eols) + "";
    LinesOfFile(ls, eols, "");
  }

  /** Example: a lone `\r` followed by an empty line ended by `\r\n`. */
  lemma LoneReturnThenEmptyLineExample()
    ensures Lines("a\r\r\n") == ["a", ""]
  {
    var ls, eols := ["a", ""], ["\r", "\r\n"];
    assert NoBreaks("a") && NoBreaks("");
    assert Separated(ls, eols) by {
      assert Separated([""], ["\r\n"]) by {
        assert [""][1..] == [] && ["\r\n"][1..] == [];
      }
      assert ls[1..] == [""] && eols[1..] == ["\r\n"];
    }
    assert "a\r\r\n" == Terminated(ls, eols) + "";
    LinesOfFile(ls, eols, "");
  }

  // ----- the ids -----

  /** One line's contribution: its stripped text, unless it is blank. */
  function TrimmedId(line: string): (r: Option<string>)
    ensures r.None? <==> AllSpace(line)
  {
    var t := Strip(line);
    if t == [] then None else Some(t)
  }

  function TrimmedLines(ls: seq<string>): (r: seq<Option<string>>)
    ensures |r| == |ls|
    ensures forall i :: 0 <= i < |ls| ==> r[i] == TrimmedId(ls[i])
  {
    seq(|ls|, i requires 0 <= i < |ls| => TrimmedId(ls[i]))
  }

  /** An id: non-empty, no surrounding whitespace, no line break. */
  predicate IsTrimmedId(id: string)
  {
    id != [] && !IsSpace(id[0]) && !IsSpace(id[|id| - 1]) && NoBreaks(id)
  }

  /** `[line.strip() for line in f if line.strip()]`. */
  function ManualIds(content: string): (ids: seq<string>)
    ensures |ids| <= |Lines(content)|
    ensures forall k :: 0 <= k < |ids| ==> IsTrimmedId(ids[k])
  {
    IdsAreTrimmed(Lines(content));
    KeepSome(TrimmedLines(Lines(content)))
  }

  lemma IdsAreTrimmed(ls: seq<string>)
    requires forall i :: 0 <= i < |ls| ==> NoBreaks(ls[i])
    ensures forall k :: 0 <= k < |KeepSome(TrimmedLines(ls))| ==> IsTrimmedId(KeepSome(TrimmedLines(ls))[k])
  {
    var ts := TrimmedLines(ls);
    var ids := KeepSome(ts);
    forall k | 0 <= k < |ids|
      ensures IsTrimmedId(ids[k])
    {
      assert Some(ids[k]) in ts;
      var i :| 0 <= i < |ts| && ts[i] == Some(ids[k]);
      StrippedHasNoBreaks(ls[i]);
    }
  }

  lemma StrippedHasNoBreaks(line: string)
    requires NoBreaks(line)
    ensures NoBreaks(Strip(line))
  {
    var i, j :| 0 <= i <= j <= |line| && Strip(line) == line[i..j];
    forall k | 0 <= k < j - i ensures !IsLineBreak(line[i..j][k]) {
      assert line[i..j][k] == line[i + k];
    }
  }

  /** The ids are the stripped non-blank lines, all of them, in file order. */
  lemma ManualIdsAreNonBlankLines(content: string)
    ensures SelectsSome(TrimmedLines(Lines(content)), SomePositions(TrimmedLines(Lines(content))), ManualIds(content))
  {
    KeepSomeIsOrderedSelection(TrimmedLines(Lines(content)));
  }

  /** Example: a file with two ids around a blank line. */
  lemma ManualIdsSkipBlankLine(a: string, blank: string, b: string, eol: string)
    requires IsTrimmedId(a) && IsTrimmedId(b)
    requires AllSpace(blank) && NoBreaks(blank)
    requires IsTerminator(eol)
    ensures ManualIds(Terminated([a, blank, b], [eol, eol, eol])) == [a, b]
  {
    var ls, eols := [a, blank, b], [eol, eol, eol];
    assert Separated(ls, eols) by {
      assert Separated([b], [eol]) by {
        assert [b][1..] == [] && [eol][1..] == [];
      }
      assert Separated([blank, b], [eol, eol]) by {
        assert [blank, b][1..] == [b] && [eol, eol][1..] == [eol];
      }
      assert ls[1..] == [blank, b] && eols[1..] == [eol, eol];
    }
    LinesOfFile(ls, eols, "");
    assert Terminated(ls, eols) + "" == Terminated(ls, eols);
    TrimmedAroundBlank(a, blank, b);
    KeepSomeSkipsMiddle(a, b);
    assert ManualIds(Terminated(ls, eols)) == KeepSome(TrimmedLines(ls));
  }

  lemma TrimmedAroundBlank(a: string, blank: string, b: string)
    requires IsTrimmedId(a) && IsTrimmedId(b) && AllSpace(blank)
    ensures TrimmedLines([a, blank, b]) == [Some(a), None, Some(b)]
  {
    StripTrimmed(a);
    StripTrimmed(b);
  }

  lemma KeepSomeSkipsMiddle<T>(a: T, b: T)
    ensures KeepSome([Some(a), None, Some(b)]) == [a, b]
  {
    var xs := [Some(a), None, Some(b)];
    assert xs[..2] == [Some(a), None];
    assert xs[..2][..1] == [Some(a)];
    assert xs[..2][..1][..0] == [];
    assert KeepSome(xs[..2][..1]) == [a];
    assert KeepSome(xs[..2]) == [a];
  }

  lemma StripTrimmed(s: string)
    requires s != [] && !IsSpace(s[0]) && !IsSpace(s[|s| - 1])
    ensures Strip(s) == s
  {
    assert s[0..] == s;
  }

  lemma ReadStep(ls: seq<string>, i: int)
    requires 0 <= i < |ls|
    ensures KeepSome(TrimmedLines(ls[..i + 1])) ==
      KeepSome(TrimmedLines(ls[..i])) + (if Strip(ls[i]) != [] then [Strip(ls[i])] else [])
  {
    assert ls[..i + 1] == ls[..i] + [ls[i]];
    TrimmedLinesSnoc(ls[..i], ls[i]);
    KeepSomeSnoc(TrimmedLines(ls[..i]), TrimmedId(ls[i]));
  }

  lemma TrimmedLinesSnoc(xs: seq<string>, l: string)
    ensures TrimmedLines(xs + [l]) == TrimmedLines(xs) + [TrimmedId(l)]
  {
    var ys := xs + [l];
    forall k | 0 <= k < |ys|
      ensures TrimmedLines(ys)[k] == (TrimmedLines(xs) + [TrimmedId(l)])[k]
    {
      if k < |xs| {
        assert ys[k] == xs[k];
      }
    }
  }

  /** Reading the file line by line, as the comprehension does. */
  method ReadManualIds(content: string) returns (ids: seq<string>)
    ensures ids == ManualIds(content)
  {
    var lines := Lines(content);
    ids := [];
    var i := 0;
    while i < |lines|
      invariant 0 <= i <= |lines|
      invariant ids == KeepSome(TrimmedLines(lines[..i]))
    {
      var id := Strip(lines[i]);
      ReadStep(lines, i);
      if id != [] {
        ids := ids + [id];
      }
      i := i + 1;
    }
    assert lines[..i] == lines;
  }
}
