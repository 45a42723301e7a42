/** What the loader makes of a desktop entry that was printed line by line. */
module DesktopFormat {
  import opened Desktop

  predicate IsLine(l: string) { forall i :: 0 <= i < |l| ==> l[i] != '\n' && l[i] != '\0' }

  function Render(lines: seq<string>): string {
    if lines == [] then "" else lines[0] + "\n" + Render(lines[1..])
  }

  /** fgets with a 512-byte buffer hands a long line over in pieces of 511 bytes. */
  function Pieces(l: string): seq<string>
    decreases |l|
  {
    if |l| < LINE_SIZE - 1 then [l] else [l[..LINE_SIZE - 1]] + Pieces(l[LINE_SIZE - 1..])
  }

  function AllPieces(lines: seq<string>): seq<string> {
    if lines == [] then [] else Pieces(lines[0]) + AllPieces(lines[1..])
  }

  lemma {:induction false} ChunkOfLine(l: string, rest: string, limit: nat)
    requires IsLine(l)
    ensures ChunkLength(l + "\n" + rest, limit) == if |l| < limit then |l| + 1 else limit
    decreases limit
  {
    if limit > 0 && l != "" {
      assert (l + "\n" + rest)[1..] == l[1..] + "\n" + rest;
      ChunkOfLine(l[1..], rest, limit - 1);
    }
  }

  lemma {:induction false} ChompLine(l: string, tail: string)
    requires IsLine(l) && (tail == "" || tail[0] == '\n')
    ensures Chomp(l + tail) == l
  {
    if l != "" {
      assert (l + tail)[1..] == l[1..] + tail;
      ChompLine(l[1..], tail);
    } else {
      assert l + tail == tail;
    }
  }

  lemma {:induction false} LinesOfLine(l: string, rest: string)
    requires IsLine(l)
    ensures Lines(l + "\n" + rest) == Pieces(l) + Lines(rest)
    decreases |l|
  {
    hide Lines, Chomp;
    var s, max := l + "\n" + rest, LINE_SIZE - 1;
    ChunkOfLine(l, rest, max);
    if |l| < max {
      LinesHead(s, |l| + 1);
      assert s[..|l| + 1] == l + "\n" && s[|l| + 1..] == rest;
      ChompLine(l, "\n");
    } else {
      LinesHead(s, max);
      assert s[..max] == l[..max] + "" && s[max..] == l[max..] + "\n" + rest;
      ChompLine(l[..max], "");
      LinesOfLine(l[max..], rest);
    }
  }

  /** The loop sees the lines that were printed, long ones in pieces. */
  lemma {:induction false} LinesOfRender(lines: seq<string>)
    requires forall i :: 0 <= i < |lines| ==> IsLine(lines[i])
    ensures Lines(Render(lines)) == AllPieces(lines)
  {
    hide Pieces;
    if lines == [] {
      assert Lines("") == [];
    } else {
      assert IsLine(lines[0]);
      LinesOfRender(lines[1..]);
      LinesOfLine(lines[0], Render(lines[1..]));
    }
  }

  lemma {:induction false} ShortLinesWhole(lines: seq<string>)
    requires forall i :: 0 <= i < |lines| ==> |lines[i]| < LINE_SIZE - 1
    ensures AllPieces(lines) == lines
  {
    if lines != [] {
      assert |lines[0]| < LINE_SIZE - 1;
      ShortLinesWhole(lines[1..]);
    }
  }

  lemma {:induction false} ParseConcat(p: Parse, a: seq<string>, b: seq<string>)
    ensures ParseLines(p, a + b) == ParseLines(ParseLines(p, a), b)
    decreases |a|
  {
    hide ParseLine;
    if a == [] {
      assert a + b == b;
    } else {
      assert (a + b)[1..] == a[1..] + b;
      ParseConcat(ParseLine(p, a[0]), a[1..], b);
    }
  }

  // ---- parsing undoes printing --------------------------------------------------------------

  function Print(a: App): seq<string> {
    ["[Desktop Entry]", "Name=" + a.name, "Exec=" + a.exec, "Icon=" + a.icon]
  }

  predicate Fits(a: App) {
    && |a.name| <= 63 && |a.exec| <= 255 && |a.icon| <= 63 && a.accent == 0xFF607D8B
    && IsLine(a.name) && IsLine(a.exec) && IsLine(a.icon)
  }

  lemma KeyLine(a: App, key: string, value: string)
    requires key == "Name=" || key == "Exec=" || key == "Icon="
    ensures ParseLine(Parse(true, a), key + value) ==
            Parse(true, if key == "Name=" then a.(name := Strncpy(value, 63))
                        else if key == "Exec=" then a.(exec := Strncpy(value, 255))
                        else a.(icon := Strncpy(value, 63)))
  {
    var line := key + value;
    assert line[0] == key[0] && line[0] != '[';
    assert HEADER[0] == '[' && "["[0] == '[' && "Name="[0] == 'N' && "Exec="[0] == 'E' && "Icon="[0] == 'I';
    assert line[..5] == key && line[5..] == value;
  }

  lemma PrintedLinesParse(a: App)
    requires Fits(a)
    ensures ParseLines(Parse(false, BLANK), Print(a)) == Parse(true, a)
  {
    hide SetField;
    var ls := Print(a);
    assert ls[1..][1..] == ls[2..] && ls[1..][0] == ls[1];
    assert ls[2..][1..] == ls[3..] && ls[2..][0] == ls[2];
    assert ls[3..][0] == ls[3] && ls[3..][1..] == [];
    var p1 := Parse(true, BLANK);
    assert ParseLine(Parse(false, BLANK), HEADER) == p1;
    KeyLine(BLANK, "Name=", a.name);
    var p2 := ParseLine(p1, ls[1]);
    KeyLine(p2.app, "Exec=", a.exec);
    var p3 := ParseLine(p2, ls[2]);
    KeyLine(p3.app, "Icon=", a.icon);
    UnfoldFour(Parse(false, BLANK), ls);
  }

  lemma UnfoldFour(p: Parse, ls: seq<string>)
    requires |ls| == 4
    ensures ParseLines(p, ls) == ParseLine(ParseLine(ParseLine(ParseLine(p, ls[0]), ls[1]), ls[2]), ls[3])
  {
    hide ParseLine;
    assert ls[1..][1..] == ls[2..] && ls[2..][1..] == ls[3..] && ls[3..][1..] == [];
    assert ls[1..][0] == ls[1] && ls[2..][0] == ls[2] && ls[3..][0] == ls[3];
    var p1 := ParseLine(p, ls[0]);
    var p2 := ParseLine(p1, ls[1]);
    var p3 := ParseLine(p2, ls[2]);
    assert ParseLines(p3, ls[3..]) == ParseLine(p3, ls[3]);
    assert ParseLines(p2, ls[2..]) == ParseLines(p3, ls[3..]);
    assert ParseLines(p1, ls[1..]) == ParseLines(p2, ls[2..]);
  }

  lemma CommandKeptExactly(exec: string)
    ensures StripPercent(exec) == exec <==> '%' !in exec || exec[0] == '%'
  {
    var i := IndexOf(exec, '%');
    if i > 0 {
      assert |exec[..i - 1]| < |exec|;
      assert exec[0] in exec[..i];
    }
  }

  /** r is what is left of command v: all of it, or what stands before the byte in front of its first '%'. */
  predicate IsCommandOf(r: string, v: string) {
    if '%' !in v || v[0] == '%' then r == v
    else |r| + 1 < |v| && r <= v && v[|r| + 1] == '%' && '%' !in v[..|r| + 1]
  }

  lemma FirstIsUnique(v: string, i: nat, j: nat)
    requires i < |v| && v[i] == '%' && '%' !in v[..i]
    requires j < |v| && v[j] == '%' && '%' !in v[..j]
    ensures i == j
  {
    assert forall k :: 0 <= k < i ==> v[k] in v[..i];
    assert forall k :: 0 <= k < j ==> v[k] in v[..j];
  }

  lemma CommandCut(v: string, r: string)
    ensures IsCommandOf(r, v) <==> r == StripPercent(v)
  {
    var i := IndexOf(v, '%');
    if i > 0 {
      assert v[0] in v[..i];
      if IsCommandOf(r, v) {
        FirstIsUnique(v, i, |r| + 1);
        assert r == v[..|r|];
      }
    }
  }

  /** A printed entry comes back as it was, except that its command ends before the byte in front of a '%'. */
  lemma ParseUndoesPrint(a: App)
    requires Fits(a)
    ensures var b := ParseFile(Render(Print(a))); b == a.(exec := b.exec) && IsCommandOf(b.exec, a.exec)
    ensures ParseFile(Render(Print(a))) == a <==> '%' !in a.exec || a.exec[0] == '%'
  {
    hide Lines, Render, ParseLines, StripPercent, Pieces;
    PrintedLines(a);
    LinesOfRender(Print(a));
    ShortLinesWhole(Print(a));
    PrintedLinesParse(a);
    CommandKeptExactly(a.exec);
    CommandCut(a.exec, StripPercent(a.exec));
  }

  /** A field code and the byte before it are cut off with all that follows. */
  lemma FieldCodeCut(a: App, cmd: string, c: char, rest: string)
    requires Fits(a) && a.exec == cmd + [c] + "%" + rest && '%' !in cmd && c != '%'
    ensures ParseFile(Render(Print(a))) == a.(exec := cmd)
  {
    hide ParseFile, Render, StripPercent;
    ParseUndoesPrint(a);
    CommandCut(a.exec, ParseFile(Render(Print(a))).exec);
    assert a.exec[|cmd| + 1] == '%' && a.exec[..|cmd| + 1] == cmd + [c] && a.exec[0] != '%' && cmd <= a.exec;
    CommandCut(a.exec, cmd);
  }

  /** A printed entry in a file whose name contains .desktop is loaded exactly if a name and some of the command are left. */
  lemma PrintedIsLoaded(a: App, fileName: string, i: nat)
    requires Fits(a) && i <= |fileName| && ".desktop" <= fileName[i..]
    ensures var b := ParseFile(Render(Print(a)));
            Contribution(Entry(fileName, Some(Render(Print(a))))) ==
            if a.name == "" || IsCommandOf("", a.exec) then [] else [b]
  {
    hide ParseFile, Render, StripPercent, Contains;
    var b := ParseFile(Render(Print(a)));
    ParseUndoesPrint(a);
    CommandCut(a.exec, b.exec);
    CommandCut(a.exec, "");
    ContributionExactly(Entry(fileName, Some(Render(Print(a)))), b);
  }

  lemma PrintedLines(a: App)
    requires Fits(a)
    ensures forall i :: 0 <= i < |Print(a)| ==> IsLine(Print(a)[i]) && |Print(a)[i]| < LINE_SIZE - 1
  {
    KeyLineIsLine("Name=", a.name);
    KeyLineIsLine("Exec=", a.exec);
    KeyLineIsLine("Icon=", a.icon);
  }

  lemma KeyLineIsLine(key: string, value: string)
    requires IsLine(key) && IsLine(value)
    ensures IsLine(key + value)
  {
  }

  // ---- which lines matter -------------------------------------------------------------------

  predicate Matters(l: string) { "[" <= l || "Name=" <= l || "Exec=" <= l || "Icon=" <= l }

  /** A line is a no-op in every state exactly when it opens no group and sets no known key. */
  lemma IgnoredExactly(l: string)
    ensures (forall p: Parse :: ParseLine(p, l) == p) <==> !Matters(l)
  {
    assert "[" <= HEADER;
    if Matters(l) {
      var a := App("x", "x", "x", 0);
      var b := App("y", "y", "y", 0);
      if l == HEADER {
        assert ParseLine(Parse(false, a), l) != Parse(false, a);
      } else if "[" <= l {
        assert ParseLine(Parse(true, a), l) != Parse(true, a);
      } else {
        assert SetField(a, l) != a || SetField(b, l) != b;
        assert ParseLine(Parse(true, a), l).app == SetField(a, l);
        assert ParseLine(Parse(true, b), l).app == SetField(b, l);
      }
    }
  }

  lemma {:induction false} IgnoredPieces(p: Parse, ls: seq<string>)
    requires forall i :: 0 <= i < |ls| ==> !Matters(ls[i])
    ensures ParseLines(p, ls) == p
    decreases |ls|
  {
    if ls != [] {
      assert !Matters(ls[0]);
      IgnoredExactly(ls[0]);
      IgnoredPieces(p, ls[1..]);
    }
  }

  lemma {:induction false} AllPiecesConcat(a: seq<string>, b: seq<string>)
    ensures AllPieces(a + b) == AllPieces(a) + AllPieces(b)
  {
    hide Pieces;
    if a == [] {
      assert a + b == b;
    } else {
      assert (a + b)[1..] == a[1..] + b;
      AllPiecesConcat(a[1..], b);
    }
  }

  /**
   * Inserting a line of any length anywhere leaves the file's meaning alone when none of its
   * pieces matters; a line under 511 bytes is its only piece.
   */
  lemma InsertedLineIgnored(before: seq<string>, l: string, after: seq<string>)
    requires forall i :: 0 <= i < |before| ==> IsLine(before[i])
    requires forall i :: 0 <= i < |after| ==> IsLine(after[i])
    requires IsLine(l) && forall i :: 0 <= i < |Pieces(l)| ==> !Matters(Pieces(l)[i])
    ensures ParseFile(Render(before + [l] + after)) == ParseFile(Render(before + after))
  {
    hide Lines, Render, ParseLines, Pieces, Matters, StripPercent;
    LinesOfRender(before + [l] + after);
    LinesOfRender(before + after);
    AllPiecesConcat(before + [l], after);
    AllPiecesConcat(before, [l]);
    AllPiecesConcat(before, after);
    OneLinePieces(l);
    var start := Parse(false, BLANK);
    var x, y, z := AllPieces(before), Pieces(l), AllPieces(after);
    ParseConcat(start, x + y, z);
    ParseConcat(start, x, y);
    ParseConcat(start, x, z);
    IgnoredPieces(ParseLines(start, x), y);
  }

  lemma OneLinePieces(l: string)
    ensures AllPieces([l]) == Pieces(l)
  {
    hide Pieces;
    assert [l][1..] == [];
  }

  // ---- keys -----------------------------------------------------------------------------------

  datatype Key = NameKey | ExecKey | IconKey

  function Prefix(k: Key): string {
    match k
    case NameKey => "Name="
    case ExecKey => "Exec="
    case IconKey => "Icon="
  }

  function Field(a: App, k: Key): string {
    match k
    case NameKey => a.name
    case ExecKey => a.exec
    case IconKey => a.icon
  }

  function Limit(k: Key): nat { if k == ExecKey then 255 else 63 }

  predicate OpensGroup(l: string) { "[" <= l }

  lemma FieldAfterLine(p: Parse, l: string, k: Key)
    ensures Prefix(k) <= l && p.inEntry ==> Field(ParseLine(p, l).app, k) == Strncpy(l[5..], Limit(k))
    ensures !(Prefix(k) <= l) || !p.inEntry ==> Field(ParseLine(p, l).app, k) == Field(p.app, k)
    ensures OpensGroup(l) ==> ParseLine(p, l).inEntry == (l == HEADER)
    ensures !OpensGroup(l) ==> ParseLine(p, l).inEntry == p.inEntry
  {
    assert OpensGroup(HEADER) && HEADER[0] == '[';
    assert Prefix(k) <= l ==> l[0] == Prefix(k)[0];
    assert Prefix(NameKey)[0] == 'N' && Prefix(ExecKey)[0] == 'E' && Prefix(IconKey)[0] == 'I';
    assert OpensGroup(l) ==> l[0] == '[';
  }

  /** Line i stands in the entry: the last group line before it is the header. */
  ghost predicate InEntryAt(ls: seq<string>, i: nat)
    requires i <= |ls|
  {
    exists g :: 0 <= g < i && ls[g] == HEADER && forall j :: g < j < i ==> !OpensGroup(ls[j])
  }

  ghost predicate SetsKey(ls: seq<string>, i: nat, k: Key)
    requires i < |ls|
  {
    Prefix(k) <= ls[i] && InEntryAt(ls, i)
  }

  /** No line from i on sets key k. */
  ghost predicate Unset(ls: seq<string>, i: nat, k: Key) {
    forall j: nat :: i <= j < |ls| ==> !SetsKey(ls, j, k)
  }

  lemma InEntryStep(ls: seq<string>, i: nat)
    requires i < |ls|
    ensures InEntryAt(ls, i) <==> InEntryAt(ls[..|ls| - 1], i)
    ensures i == |ls| - 1 ==>
              (InEntryAt(ls, |ls|) <==> if OpensGroup(ls[i]) then ls[i] == HEADER else InEntryAt(ls, i))
  {
    assert OpensGroup(HEADER) by { assert HEADER[0] == '['; }
    hide OpensGroup;
    var front := ls[..|ls| - 1];
    if g :| 0 <= g < i && ls[g] == HEADER && forall j :: g < j < i ==> !OpensGroup(ls[j]) {
      assert front[g] == HEADER && forall j :: g < j < i ==> !OpensGroup(front[j]);
    }
    if g :| 0 <= g < i && front[g] == HEADER && forall j :: g < j < i ==> !OpensGroup(front[j]) {
      assert ls[g] == HEADER && forall j :: g < j < i ==> !OpensGroup(ls[j]);
    }
    assert i == |ls| - 1 ==> ls[..i + 1] == ls;
  }

  lemma LastLine(p: Parse, ls: seq<string>)
    requires ls != []
    ensures ParseLines(p, ls) == ParseLine(ParseLines(p, ls[..|ls| - 1]), ls[|ls| - 1])
  {
    hide ParseLine, ParseLines;
    assert ls == ls[..|ls| - 1] + [ls[|ls| - 1]];
    ParseConcat(p, ls[..|ls| - 1], [ls[|ls| - 1]]);
    OneLineParse(ParseLines(p, ls[..|ls| - 1]), ls[|ls| - 1]);
  }

  lemma {:induction false} EntryState(ls: seq<string>)
    ensures ParseLines(Parse(false, BLANK), ls).inEntry <==> InEntryAt(ls, |ls|)
  {
    hide ParseLine, InEntryAt, OpensGroup;
    if ls == [] {
      NotInEntryYet(ls);
    } else {
      EntryState(ls[..|ls| - 1]);
      LastLine(Parse(false, BLANK), ls);
      FieldAfterLine(ParseLines(Parse(false, BLANK), ls[..|ls| - 1]), ls[|ls| - 1], NameKey);
      InEntryStep(ls, |ls| - 1);
    }
  }

  lemma NotInEntryYet(ls: seq<string>)
    ensures !InEntryAt(ls, 0)
  {
  }

  lemma FieldStep(ls: seq<string>, k: Key)
    requires ls != []
    ensures var n, start := |ls| - 1, Parse(false, BLANK);
            Field(ParseLines(start, ls).app, k) ==
            if SetsKey(ls, n, k) then Strncpy(ls[n][5..], Limit(k)) else Field(ParseLines(start, ls[..n]).app, k)
  {
    hide ParseLine, ParseLines, InEntryAt, Field, Prefix, Strncpy, Limit;
    var n := |ls| - 1;
    EntryState(ls[..n]);
    LastLine(Parse(false, BLANK), ls);
    SetterIsLong(ls, n, k);
    FieldAfterLine(ParseLines(Parse(false, BLANK), ls[..n]), ls[n], k);
    InEntryStep(ls, n);
  }

  lemma SetterIsLong(ls: seq<string>, i: nat, k: Key)
    requires i < |ls|
    ensures SetsKey(ls, i, k) ==> |ls[i]| >= 5
  {
  }

  /** What a key ends up with depends only on the last line in the entry that sets it. */
  lemma {:induction false} FieldOfLines(ls: seq<string>, k: Key, i: nat)
    ensures Unset(ls, 0, k) ==> Field(ParseLines(Parse(false, BLANK), ls).app, k) == ""
    ensures i < |ls| && SetsKey(ls, i, k) ==> |ls[i]| >= 5
    ensures i < |ls| && SetsKey(ls, i, k) && Unset(ls, i + 1, k) ==>
              Field(ParseLines(Parse(false, BLANK), ls).app, k) == Strncpy(ls[i][5..], Limit(k))
    decreases |ls|
  {
    if ls == [] {
      NothingParsed(Parse(false, BLANK));
    } else {
      hide ParseLines, InEntryAt, Field, Prefix, Unset, Strncpy, Limit;
      var n := |ls| - 1;
      FieldOfLines(ls[..n], k, i);
      FieldStep(ls, k);
      UnsetStep(ls, 0, k);
      if i < |ls| { SetterIsLong(ls, i, k); }
      if i < n {
        InEntryStep(ls, i);
        UnsetStep(ls, i + 1, k);
      }
    }
  }

  lemma UnsetStep(ls: seq<string>, i: nat, k: Key)
    requires i < |ls|
    ensures Unset(ls, i, k) <==> Unset(ls[..|ls| - 1], i, k) && !SetsKey(ls, |ls| - 1, k)
  {
    hide InEntryAt, Prefix;
    var front := ls[..|ls| - 1];
    forall j: nat | i <= j < |ls| - 1
      ensures SetsKey(ls, j, k) <==> SetsKey(front, j, k)
    {
      InEntryStep(ls, j);
    }
  }

  /**
   * What the loader makes of any file, read backwards: a key has the value of the last piece in the
   * entry that sets it, cut to its buffer and, for the command, at its '%'; without one it is empty.
   */
  lemma LastValueWins(lines: seq<string>, k: Key, i: nat)
    requires AllLines(lines)
    ensures var ls := AllPieces(lines);
            var value := Field(ParseFile(Render(lines)), k);
            && (Unset(ls, 0, k) ==> value == "")
            && (i < |ls| && SetsKey(ls, i, k) && Unset(ls, i + 1, k) ==>
                  var whole := ls[i][5..];
                  if k == ExecKey then IsCommandOf(value, if |whole| <= 255 then whole else whole[..255])
                  else value == if |whole| <= 63 then whole else whole[..63])
    ensures ParseFile(Render(lines)).accent == 0xFF607D8B
  {
    hide Lines, Render, ParseLines, SetsKey, Unset, Pieces, StripPercent, IsCommandOf;
    LinesOfRender(lines);
    FieldOfLines(AllPieces(lines), k, i);
    AccentStays(Parse(false, BLANK), AllPieces(lines));
    NoCommand();
    if i < |AllPieces(lines)| && SetsKey(AllPieces(lines), i, k) {
      SetterIsLong(AllPieces(lines), i, k);
      var whole := AllPieces(lines)[i][5..];
      CommandCut(Strncpy(whole, 255), StripPercent(Strncpy(whole, 255)));
    }
  }

  lemma NoCommand()
    ensures StripPercent("") == ""
  {
  }

  lemma {:induction false} AccentStays(p: Parse, ls: seq<string>)
    ensures ParseLines(p, ls).app.accent == p.app.accent
    decreases |ls|
  {
    if ls != [] { AccentStays(ParseLine(p, ls[0]), ls[1..]); }
  }

  lemma OneLineParse(p: Parse, l: string)
    ensures ParseLines(p, [l]) == ParseLine(p, l)
  {
    hide ParseLine;
    assert [l][1..] == [];
  }

  // ---- exactly which insertions are safe -------------------------------------------------------

  /** After a group line the parser forgets whether it was in the entry before. */
  lemma {:induction false} GroupDecides(p: Parse, q: Parse, ls: seq<string>)
    requires p.inEntry == q.inEntry || exists i :: 0 <= i < |ls| && OpensGroup(ls[i])
    ensures ParseLines(p, ls).inEntry == ParseLines(q, ls).inEntry
    decreases |ls|
  {
    hide ParseLine;
    if ls != [] {
      FieldAfterLine(p, ls[0], NameKey);
      FieldAfterLine(q, ls[0], NameKey);
      if p.inEntry != q.inEntry && !OpensGroup(ls[0]) {
        var i :| 0 <= i < |ls| && OpensGroup(ls[i]);
        assert ls[1..][i - 1] == ls[i];
      }
      GroupDecides(ParseLine(p, ls[0]), ParseLine(q, ls[0]), ls[1..]);
    }
  }

  /** Inside the entry, after a key line the parser forgets the key's value before. */
  lemma {:induction false} KeyDecides(p: Parse, q: Parse, ls: seq<string>, k: Key)
    requires p.inEntry && q.inEntry && forall i :: 0 <= i < |ls| ==> !OpensGroup(ls[i])
    requires Field(p.app, k) == Field(q.app, k) || exists i :: 0 <= i < |ls| && Prefix(k) <= ls[i]
    ensures Field(ParseLines(p, ls).app, k) == Field(ParseLines(q, ls).app, k)
    decreases |ls|
  {
    hide ParseLine, Field, Prefix;
    if ls != [] {
      assert !OpensGroup(ls[0]);
      FieldAfterLine(p, ls[0], k);
      FieldAfterLine(q, ls[0], k);
      if Field(p.app, k) != Field(q.app, k) && !(Prefix(k) <= ls[0]) {
        var i :| 0 <= i < |ls| && Prefix(k) <= ls[i];
        assert ls[1..][i - 1] == ls[i];
      }
      KeyDecides(ParseLine(p, ls[0]), ParseLine(q, ls[0]), ls[1..], k);
    }
  }

  ghost predicate AllLines(ls: seq<string>) { forall i :: 0 <= i < |ls| ==> IsLine(ls[i]) }

  /** Inserting l never changes what the loader makes of a file. */
  ghost predicate SafeToInsert(l: string) {
    forall before: seq<string>, after: seq<string> :: AllLines(before) && AllLines(after) ==>
      Inserted(before, l, after) == Without(before, after)
  }

  function Inserted(before: seq<string>, l: string, after: seq<string>): App {
    ParseFile(Render(before + [l] + after))
  }

  function Without(before: seq<string>, after: seq<string>): App { ParseFile(Render(before + after)) }

  /** Both readings, with short lines around the inserted one. */
  lemma Readings(before: seq<string>, l: string, after: seq<string>)
    requires AllLines(before) && AllLines(after) && IsLine(l)
    requires forall i :: 0 <= i < |before| ==> |before[i]| < LINE_SIZE - 1
    requires forall i :: 0 <= i < |after| ==> |after[i]| < LINE_SIZE - 1
    ensures var b := ParseLines(Parse(false, BLANK), before);
            && Ended(ParseLines(ParseLines(b, Pieces(l)), after).app) == Inserted(before, l, after)
            && Ended(ParseLines(b, after).app) == Without(before, after)
  {
    hide Lines, Render, ParseLines, Pieces, StripPercent;
    LinesOfRender(before + [l] + after);
    LinesOfRender(before + after);
    AllPiecesConcat(before + [l], after);
    AllPiecesConcat(before, [l]);
    AllPiecesConcat(before, after);
    OneLinePieces(l);
    ShortLinesWhole(before);
    ShortLinesWhole(after);
    var start := Parse(false, BLANK);
    ParseConcat(start, before + Pieces(l), after);
    ParseConcat(start, before, Pieces(l));
    ParseConcat(start, before, after);
  }

  function Ended(a: App): App { a.(exec := StripPercent(a.exec)) }

  /** A piece that opens a group: some file reads differently. */
  lemma GroupPieceMatters(l: string, i: nat)
    requires IsLine(l) && i < |Pieces(l)| && OpensGroup(Pieces(l)[i])
    ensures !SafeToInsert(l)
  {
    hide ParseLine, ParseLines, Pieces, StripPercent, Inserted, Without;
    var outside, inside := Parse(false, BLANK), ParseLines(Parse(false, BLANK), [HEADER]);
    OneLineParse(outside, HEADER);
    FieldAfterLine(outside, HEADER, NameKey);
    GroupDecides(outside, inside, Pieces(l));
    NothingParsed(outside);
    if ParseLines(outside, Pieces(l)).inEntry {
      NameReadings([], l, "x");
    } else {
      NameReadings([HEADER], l, "x");
      NameReadings([HEADER], l, "y");
    }
  }

  /** With a name line after the inserted one, the name tells whether the parser is in the entry. */
  lemma NameReadings(before: seq<string>, l: string, value: string)
    requires before == [] || before == [HEADER]
    requires IsLine(l) && (value == "x" || value == "y")
    ensures var after := ["Name=" + value];
            var b := ParseLines(Parse(false, BLANK), before);
            var c := ParseLines(b, Pieces(l));
            && AllLines(before) && AllLines(after)
            && Inserted(before, l, after).name == (if c.inEntry then value else c.app.name)
            && Without(before, after).name == (if before == [] then "" else value)
  {
    hide ParseLine, ParseLines, Pieces, StripPercent, Inserted, Without;
    var line := "Name=" + value;
    var b := ParseLines(Parse(false, BLANK), before);
    assert before == [] ==> b == Parse(false, BLANK) by { NothingParsed(Parse(false, BLANK)); }
    OneLineParse(Parse(false, BLANK), HEADER);
    FieldAfterLine(Parse(false, BLANK), HEADER, NameKey);
    var c := ParseLines(b, Pieces(l));
    assert Prefix(NameKey) <= line && line[5..] == value;
    OneLineParse(b, line);
    OneLineParse(c, line);
    FieldAfterLine(b, line, NameKey);
    FieldAfterLine(c, line, NameKey);
    Readings(before, l, [line]);
  }

  lemma NothingParsed(p: Parse)
    ensures ParseLines(p, []) == p
  {
  }

  /** A piece that sets a key, and none that opens a group: some file reads differently. */
  lemma KeyPieceMatters(l: string, i: nat, k: Key)
    requires IsLine(l) && i < |Pieces(l)| && Prefix(k) <= Pieces(l)[i]
    requires forall j :: 0 <= j < |Pieces(l)| ==> !OpensGroup(Pieces(l)[j])
    ensures !SafeToInsert(l)
  {
    hide ParseLine, ParseLines, Pieces, Inserted, Without, Field, Strncpy, SafeToInsert, Ended;
    var line := Prefix(k) + "x";
    assert line[5..] == "x";
    var b1, b2 := ParseLines(Parse(false, BLANK), [HEADER]), ParseLines(Parse(false, BLANK), [HEADER, line]);
    EntryStates(k, line);
    KeyDecides(b1, b2, Pieces(l), k);
    Readings([HEADER], l, []);
    Readings([HEADER, line], l, []);
    NothingParsed(b1);
    NothingParsed(b2);
    NothingParsed(ParseLines(b1, Pieces(l)));
    NothingParsed(ParseLines(b2, Pieces(l)));
    EndedFields(b1.app, b2.app, k);
    EndedFields(ParseLines(b1, Pieces(l)).app, ParseLines(b2, Pieces(l)).app, k);
    if Inserted([HEADER], l, []) != Without([HEADER], []) {
      Unsafe([HEADER], l, []);
    } else {
      Unsafe([HEADER, line], l, []);
    }
  }

  lemma Unsafe(before: seq<string>, l: string, after: seq<string>)
    requires AllLines(before) && AllLines(after) && Inserted(before, l, after) != Without(before, after)
    ensures !SafeToInsert(l)
  {
  }

  lemma EntryStates(k: Key, line: string)
    requires line == Prefix(k) + "x"
    ensures var b1, b2 := ParseLines(Parse(false, BLANK), [HEADER]), ParseLines(Parse(false, BLANK), [HEADER, line]);
            b1.inEntry && b2.inEntry && Field(b1.app, k) == "" && Field(b2.app, k) == "x"
  {
    hide ParseLine, ParseLines;
    var start := Parse(false, BLANK);
    assert [HEADER, line] == [HEADER] + [line];
    ParseConcat(start, [HEADER], [line]);
    OneLineParse(start, HEADER);
    FieldAfterLine(start, HEADER, k);
    assert HEADER[0] == '[' && Prefix(k)[0] != '[' && line[0] == Prefix(k)[0];
    assert !(Prefix(k) <= HEADER) && !OpensGroup(line);
    var b1 := ParseLine(start, HEADER);
    OneLineParse(b1, line);
    assert line[5..] == "x";
    FieldAfterLine(b1, line, k);
  }

  lemma EndedFields(a: App, b: App, k: Key)
    ensures Field(a, k) == Field(b, k) ==> Field(Ended(a), k) == Field(Ended(b), k)
    ensures Field(a, k) == "" && Field(b, k) == "x" ==> Field(Ended(a), k) != Field(Ended(b), k)
  {
    assert IndexOf("", '%') == -1 && IndexOf("x", '%') == -1;
  }

  /** A line can be inserted into any file without effect exactly when none of its 511-byte pieces matters. */
  lemma SafeToInsertExactly(l: string)
    requires IsLine(l)
    ensures SafeToInsert(l) <==> forall i :: 0 <= i < |Pieces(l)| ==> !Matters(Pieces(l)[i])
  {
    hide Pieces, ParseFile, Render;
    if j :| 0 <= j < |Pieces(l)| && OpensGroup(Pieces(l)[j]) {
      GroupPieceMatters(l, j);
      assert Matters(Pieces(l)[j]);
    } else if j :| 0 <= j < |Pieces(l)| && Matters(Pieces(l)[j]) {
      var k := if "Name=" <= Pieces(l)[j] then NameKey else if "Exec=" <= Pieces(l)[j] then ExecKey else IconKey;
      KeyPieceMatters(l, j, k);
    } else {
      forall before: seq<string>, after: seq<string> | AllLines(before) && AllLines(after)
        ensures Inserted(before, l, after) == Without(before, after)
      {
        InsertedLineIgnored(before, l, after);
      }
    }
  }

  /** So a comment is not always ignored: this one is 517 bytes long, and its second piece sets the name. */
  lemma LongCommentSetsName()
    ensures var comment := seq(511, _ => '#') + "Name=x";
            IsLine(comment) && !Matters(comment) && !SafeToInsert(comment)
  {
    hide SafeToInsert;
    var head := seq(LINE_SIZE - 1, _ => '#');
    var comment := head + "Name=x";
    assert comment[0] == '#';
    assert comment[LINE_SIZE - 1..] == "Name=x" && comment[..LINE_SIZE - 1] == head;
    assert Pieces("Name=x") == ["Name=x"];
    assert Pieces(comment) == [head] + ["Name=x"];
    assert Matters(Pieces(comment)[1]);
    SafeToInsertExactly(comment);
  }
}
