/** The G-code clean-up done before the upload: every string of the G-code
    list is split at newlines, empty lines and lines starting with `;` are
    dropped, and each line kept is written back followed by a newline. */
module LineFilter {
  import Text

  /** A line that survives the filter. */
  predicate Kept(line: string)
  {
    line != "" && line[0] != ';'
  }

  /** All lines of all strings of the G-code list, in order. */
  function Lines(gcodes: seq<string>): (r: seq<string>)
    ensures forall line | line in r :: '\n' !in line
  {
    if |gcodes| == 0 then [] else Text.Split(gcodes[0], '\n') + Lines(gcodes[1..])
  }

  lemma LinesSingle(text: string)
    ensures Lines([text]) == Text.Split(text, '\n')
  {
    assert [text][1..] == [];
  }

  /** The lines that survive, in their original order. */
  function KeptLines(lines: seq<string>): (r: seq<string>)
    ensures forall line | line in r :: line in lines && Kept(line)
  {
    if |lines| == 0 then []
    else (if Kept(lines[0]) then [lines[0]] else []) + KeptLines(lines[1..])
  }

  /** Each line followed by a newline. */
  function Terminated(lines: seq<string>): (r: string)
    ensures |r| == 0 <==> |lines| == 0
    ensures |r| > 0 ==> r[|r| - 1] == '\n'
  {
    if |lines| == 0 then "" else lines[0] + "\n" + Terminated(lines[1..])
  }

  /** The text the filter is meant to produce from a G-code list. */
  function Filtered(gcodes: seq<string>): (r: string)
    ensures r == "" <==> KeptLines(Lines(gcodes)) == []
    ensures r != "" ==> r[|r| - 1] == '\n'
  {
    Terminated(KeptLines(Lines(gcodes)))
  }

  lemma {:induction false} LinesAppend(a: seq<string>, b: seq<string>)
    ensures Lines(a + b) == Lines(a) + Lines(b)
    decreases |a|
  {
    if |a| == 0 {
      assert a + b == b;
    } else {
      assert (a + b)[0] == a[0];
      assert (a + b)[1..] == a[1..] + b;
      LinesAppend(a[1..], b);
    }
  }

  lemma {:induction false} KeptLinesAppend(a: seq<string>, b: seq<string>)
    ensures KeptLines(a + b) == KeptLines(a) + KeptLines(b)
    decreases |a|
  {
    if |a| == 0 {
      assert a + b == b;
    } else {
      assert (a + b)[0] == a[0];
      assert (a + b)[1..] == a[1..] + b;
      KeptLinesAppend(a[1..], b);
    }
  }

  lemma {:induction false} TerminatedAppend(a: seq<string>, b: seq<string>)
    ensures Terminated(a + b) == Terminated(a) + Terminated(b)
    decreases |a|
  {
    if |a| == 0 {
      assert a + b == b;
    } else {
      assert (a + b)[0] == a[0];
      assert (a + b)[1..] == a[1..] + b;
      TerminatedAppend(a[1..], b);
    }
  }

  /** Appending one more line to the input appends it, terminated, to the
      output exactly when the line is kept. */
  lemma StepLine(done: seq<string>, line: string)
    ensures Terminated(KeptLines(done + [line]))
         == Terminated(KeptLines(done)) + (if Kept(line) then line + "\n" else "")
  {
    KeptLinesAppend(done, [line]);
    TerminatedAppend(KeptLines(done), KeptLines([line]));
    if Kept(line) {
      assert KeptLines([line]) == [line];
    } else {
      assert KeptLines([line]) == [];
    }
  }

  lemma Regroup(a: string, b: string, c: string, d: string)
    ensures a + (b + (c + d)) == a + b + c + d
  {
  }

  /** The same step, after the text already collected. */
  lemma StepAppend(toSend: string, done: seq<string>, line: string)
    ensures toSend + Terminated(KeptLines(done + [line]))
         == if Kept(line) then toSend + Terminated(KeptLines(done)) + line + "\n"
            else toSend + Terminated(KeptLines(done))
  {
    StepLine(done, line);
    var before := Terminated(KeptLines(done));
    if Kept(line) {
      Regroup(toSend, before, line, "\n");
    } else {
      assert before + "" == before;
    }
  }

  /** The inner loop of the upload request over the lines of one string:
      each line that is neither empty nor a comment is appended to `toSend`
      with a newline. */
  method AppendKept(toSend: string, lines: seq<string>) returns (r: string)
    ensures r == toSend + Terminated(KeptLines(lines))
  {
    r := toSend;
    var j := 0;
    assert lines[..j] == [];
    while j < |lines|
      invariant 0 <= j <= |lines|
      invariant r == toSend + Terminated(KeptLines(lines[..j]))
    {
      var line := lines[j];
      assert lines[..j + 1] == lines[..j] + [line];
      StepAppend(toSend, lines[..j], line);
      if line == "" || line[0] == ';' {
      } else {
        r := r + line + "\n";
      }
      j := j + 1;
    }
    assert lines[..j] == lines;
  }

  /** The loop of the upload request over the G-code list: its result is
      the kept lines of all strings, in order, each followed by a newline. */
  method Filter(gcodes: seq<string>) returns (toSend: string)
    ensures toSend == Terminated(KeptLines(Lines(gcodes)))
  {
    toSend := "";
    var i := 0;
    while i < |gcodes|
      invariant 0 <= i <= |gcodes|
      invariant toSend == Terminated(KeptLines(Lines(gcodes[..i])))
    {
      var lines := Text.Split(gcodes[i], '\n');
      toSend := AppendKept(toSend, lines);
      assert gcodes[..i + 1] == gcodes[..i] + [gcodes[i]];
      LinesAppend(gcodes[..i], [gcodes[i]]);
      LinesSingle(gcodes[i]);
      KeptLinesAppend(Lines(gcodes[..i]), lines);
      TerminatedAppend(KeptLines(Lines(gcodes[..i])), KeptLines(lines));
      i := i + 1;
    }
    assert gcodes[..i] == gcodes;
  }

  /** A filtered text is the kept lines joined by newlines, with a final
      newline when there is at least one line. */
  lemma {:induction false} TerminatedJoin(lines: seq<string>)
    ensures Terminated(lines) == Text.Join(lines + [""], '\n')
    decreases |lines|
  {
    if |lines| > 0 {
      TerminatedJoin(lines[1..]);
      assert (lines + [""])[1..] == lines[1..] + [""];
    }
  }

  /** Splitting the filtered text at newlines gives back exactly the kept
      lines, in order, and one empty piece after the final newline: no kept
      line is merged with another or cut in two. */
  lemma ResplitFiltered(gcodes: seq<string>)
    ensures Text.Split(Filtered(gcodes), '\n') == KeptLines(Lines(gcodes)) + [""]
  {
    var kept := KeptLines(Lines(gcodes));
    TerminatedJoin(kept);
    var parts := kept + [""];
    forall i | 0 <= i < |parts|
      ensures '\n' !in parts[i]
    {
      if i < |kept| {
        assert kept[i] in kept;
      }
    }
    Text.SplitJoin(parts, '\n');
  }

  lemma {:induction false} KeptLinesOfKept(lines: seq<string>)
    requires forall i | 0 <= i < |lines| :: Kept(lines[i])
    ensures KeptLines(lines) == lines
    decreases |lines|
  {
    if |lines| > 0 {
      KeptLinesOfKept(lines[1..]);
    }
  }

  /** Filtering a filtered text again changes nothing. */
  lemma FilterIdempotent(gcodes: seq<string>)
    ensures Filtered([Filtered(gcodes)]) == Filtered(gcodes)
  {
    var kept := KeptLines(Lines(gcodes));
    ResplitFiltered(gcodes);
    assert Lines([Filtered(gcodes)]) == kept + [""];
    KeptLinesAppend(kept, [""]);
    forall i | 0 <= i < |kept|
      ensures Kept(kept[i])
    {
      assert kept[i] in kept;
    }
    KeptLinesOfKept(kept);
    assert KeptLines(kept + [""]) == kept;
  }

  /** Every line is empty or a comment. */
  predicate AllDropped(lines: seq<string>)
  {
    forall i | 0 <= i < |lines| :: !Kept(lines[i])
  }

  /** No line survives exactly when every line is empty or a comment. */
  lemma {:induction false} NothingKept(lines: seq<string>)
    ensures KeptLines(lines) == [] <==> AllDropped(lines)
    decreases |lines|
  {
    if |lines| > 0 {
      NothingKept(lines[1..]);
      if AllDropped(lines) {
        forall i | 0 <= i < |lines[1..]|
          ensures !Kept(lines[1..][i])
        {
          assert lines[1..][i] == lines[i + 1];
        }
      }
      if AllDropped(lines[1..]) {
        forall i | 1 <= i < |lines|
          ensures !Kept(lines[i])
        {
          assert lines[i] == lines[1..][i - 1];
        }
      }
    }
  }

  /** The payload is empty exactly when the G-code holds nothing but empty
      lines and comments; in particular an empty G-code list gives an
      empty payload. */
  lemma FilteredEmpty(gcodes: seq<string>)
    ensures Filtered(gcodes) == "" <==> AllDropped(Lines(gcodes))
    ensures Filtered([]) == ""
  {
    var kept := KeptLines(Lines(gcodes));
    NothingKept(Lines(gcodes));
    assert Filtered(gcodes) == Terminated(kept);
    if kept != [] {
      assert Terminated(kept) == kept[0] + "\n" + Terminated(kept[1..]);
      assert Filtered(gcodes) != "";
    } else {
      assert Filtered(gcodes) == "";
    }
    assert Lines([]) == [] && KeptLines([]) == [];
  }

  /** The lines of the example text: a comment, two commands, a blank line,
      and the empty piece after the final newline. */
  lemma SplitExample(text: string)
    requires text == ";comment\nG1 X1\n\nG1 Y2\n"
    ensures Text.Split(text, '\n') == [";comment", "G1 X1", "", "G1 Y2", ""]
  {
    var parts := [";comment", "G1 X1", "", "G1 Y2", ""];
    assert Text.Join(parts[4..], '\n') == "";
    assert Text.Join(parts[3..], '\n') == "G1 Y2" + "\n" + "";
    assert Text.Join(parts[2..], '\n') == "" + "\n" + "G1 Y2\n";
    assert Text.Join(parts[1..], '\n') == "G1 X1" + "\n" + "\nG1 Y2\n";
    assert Text.Join(parts, '\n') == ";comment" + "\n" + "G1 X1\n\nG1 Y2\n";
    assert ";comment" + "\n" + "G1 X1\n\nG1 Y2\n" == text;
    Text.SplitJoin(parts, '\n');
  }

  /** One line in front of the rest. */
  lemma KeptLinesCons(lines: seq<string>)
    requires |lines| > 0
    ensures KeptLines(lines) == (if Kept(lines[0]) then [lines[0]] else []) + KeptLines(lines[1..])
  {
  }

  lemma KeptExample(lines: seq<string>)
    requires lines == [";comment", "G1 X1", "", "G1 Y2", ""]
    ensures KeptLines(lines) == ["G1 X1", "G1 Y2"]
  {
    var l1, l2, l3, l4 := lines[1..], lines[2..], lines[3..], lines[4..];
    assert l1[1..] == l2 && l2[1..] == l3 && l3[1..] == l4 && l4[1..] == [];
    assert l4[0] == "" && l3[0] == "G1 Y2" && l2[0] == "" && l1[0] == "G1 X1" && lines[0] == ";comment";
    assert !Kept("") && Kept("G1 Y2") && Kept("G1 X1") && !Kept(";comment");
    KeptLinesCons(l4);
    assert KeptLines(l4) == [];
    KeptLinesCons(l3);
    assert KeptLines(l3) == ["G1 Y2"] + [];
    KeptLinesCons(l2);
    assert KeptLines(l2) == [] + ["G1 Y2"];
    KeptLinesCons(l1);
    assert KeptLines(l1) == ["G1 X1"] + ["G1 Y2"];
    KeptLinesCons(lines);
  }

  lemma TerminatedExample(kept: seq<string>)
    requires kept == ["G1 X1", "G1 Y2"]
    ensures Terminated(kept) == "G1 X1\nG1 Y2\n"
  {
    assert kept[1..][1..] == [];
    assert Terminated(kept[1..]) == "G1 Y2" + "\n" + "";
    assert "G1 X1" + "\n" + ("G1 Y2" + "\n" + "") == "G1 X1\nG1 Y2\n";
  }

  /** The example of a comment, two commands and a blank line: only the two
      commands reach the device. */
  lemma FilterExample(text: string)
    requires text == ";comment\nG1 X1\n\nG1 Y2\n"
    ensures Filtered([text]) == "G1 X1\nG1 Y2\n"
  {
    SplitExample(text);
    LinesSingle(text);
    KeptExample(Lines([text]));
    TerminatedExample(KeptLines(Lines([text])));
  }
}
