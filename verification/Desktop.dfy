/** Loading .desktop files: fgets, the line parser, and the growing array of applications. */
module Desktop {
  import opened Words

  const LINE_SIZE: nat := 512
  const HEADER := "[Desktop Entry]"

  /** One luna_app, its fixed character buffers read as C strings. */
  datatype App = App(name: string, exec: string, icon: string, accent: uint32)

  const BLANK := App("", "", "", 0xFF607D8B)

  /** A directory entry: its name, and what the file holds if fopen succeeds. */
  datatype Entry = Entry(fileName: string, content: Option<string>)

  datatype Option<T> = None | Some(value: T)

  // ---- C library pieces ---------------------------------------------------------------------

  /** How many bytes fgets takes: up to and with a newline, at most `limit`. */
  function ChunkLength(s: string, limit: nat): (n: nat)
    ensures n <= |s| && n <= limit
    ensures s != "" && limit > 0 ==> n > 0
    ensures forall i :: 0 <= i < n - 1 ==> s[i] != '\n'
    ensures 0 < n < limit && n < |s| ==> s[n - 1] == '\n'
    decreases limit
  {
    if s == "" || limit == 0 then 0
    else if s[0] == '\n' then 1
    else 1 + ChunkLength(s[1..], limit - 1)
  }

  /** What is left of a line read by fgets: the C string before its first newline. */
  function Chomp(s: string): (r: string)
    ensures r <= s
    ensures forall i :: 0 <= i < |r| ==> r[i] != '\n' && r[i] != '\0'
    ensures |r| < |s| ==> s[|r|] == '\n' || s[|r|] == '\0'
  {
    if s == "" || s[0] == '\n' || s[0] == '\0' then "" else [s[0]] + Chomp(s[1..])
  }

  /** strncpy of a C string into a zeroed buffer of limit + 1 bytes. */
  function Strncpy(s: string, limit: nat): (r: string)
    ensures r <= s && |r| <= limit && (|r| == limit || r == s)
  {
    if |s| <= limit then s else s[..limit]
  }

  /** strchr, as an index. */
  function IndexOf(s: string, c: char): (i: int)
    ensures i == -1 || (0 <= i < |s| && s[i] == c && c !in s[..i])
    ensures i == -1 <==> c !in s
  {
    if s == "" then -1
    else if s[0] == c then 0
    else
      var j := IndexOf(s[1..], c);
      if j == -1 then -1 else j + 1
  }

  /** strstr as a test. */
  predicate Contains(s: string, t: string)
    decreases |s|
  {
    t <= s || (s != "" && Contains(s[1..], t))
  }

  /** t occurs in s, at some position. */
  lemma {:induction false} ContainsExactly(s: string, t: string)
    ensures Contains(s, t) <==> exists i :: 0 <= i <= |s| && t <= s[i..]
    decreases |s|
  {
    assert s[0..] == s;
    if s != "" {
      ContainsExactly(s[1..], t);
      if i :| 0 <= i <= |s[1..]| && t <= s[1..][i..] {
        assert s[1..][i..] == s[i + 1..];
      }
      if i :| 0 <= i <= |s| && t <= s[i..] {
        assert i > 0 ==> s[1..][i - 1..] == s[i..];
      }
    }
  }

  // ---- the parser ---------------------------------------------------------------------------

  datatype Parse = Parse(inEntry: bool, app: App)

  function ParseLine(p: Parse, line: string): Parse {
    if line == HEADER then p.(inEntry := true)
    else if "[" <= line then p.(inEntry := false)
    else if !p.inEntry then p
    else p.(app := SetField(p.app, line))
  }

  function SetField(a: App, line: string): App {
    if "Name=" <= line then a.(name := Strncpy(line[5..], 63))
    else if "Exec=" <= line then a.(exec := Strncpy(line[5..], 255))
    else if "Icon=" <= line then a.(icon := Strncpy(line[5..], 63))
    else a
  }

  function ParseLines(p: Parse, lines: seq<string>): Parse
    decreases |lines|
  {
    if lines == [] then p else ParseLines(ParseLine(p, lines[0]), lines[1..])
  }

  /** The lines the fgets loop sees in a file. */
  function Lines(content: string): seq<string>
    decreases |content|
  {
    if content == "" then []
    else
      var n := ChunkLength(content, LINE_SIZE - 1);
      [Chomp(content[..n])] + Lines(content[n..])
  }

  /** The byte before the first '%' ends the command, unless the '%' comes first of all. */
  function StripPercent(exec: string): string {
    var i := IndexOf(exec, '%');
    if i > 0 then exec[..i - 1] else exec
  }

  function ParseFile(content: string): App {
    var a := ParseLines(Parse(false, BLANK), Lines(content)).app;
    a.(exec := StripPercent(a.exec))
  }

  predicate Usable(a: App) { a.name != "" && a.exec != "" }

  /** What one directory entry contributes. */
  function Contribution(e: Entry): seq<App> {
    if Contains(e.fileName, ".desktop") && e.content.Some? && Usable(ParseFile(e.content.value))
    then [ParseFile(e.content.value)] else []
  }

  /** The usable applications of a listing, in order. */
  function Applications(es: seq<Entry>): seq<App> {
    if es == [] then [] else Applications(es[..|es| - 1]) + Contribution(es[|es| - 1])
  }

  /** An entry contributes exactly if its name contains .desktop and its file can be read and gives a name and a command. */
  lemma ContributionExactly(e: Entry, a: App)
    ensures a in Contribution(e) <==>
              && (exists i :: 0 <= i <= |e.fileName| && ".desktop" <= e.fileName[i..])
              && e.content.Some? && a == ParseFile(e.content.value) && |a.name| > 0 && |a.exec| > 0
    ensures |Contribution(e)| <= 1
  {
    hide Contains, ParseFile;
    ContainsExactly(e.fileName, ".desktop");
  }

  /** A listing gives what its parts give, one after the other. */
  lemma {:induction false} ApplicationsConcat(es: seq<Entry>, fs: seq<Entry>)
    ensures Applications(es + fs) == Applications(es) + Applications(fs)
    ensures |fs| == 1 ==> Applications(fs) == Contribution(fs[0])
  {
    hide Contribution;
    if fs == [] {
      assert es + fs == es;
    } else {
      assert (es + fs)[..|es + fs| - 1] == es + fs[..|fs| - 1];
      ApplicationsConcat(es, fs[..|fs| - 1]);
    }
  }

  // ---- the loader ---------------------------------------------------------------------------

  lemma LinesHead(s: string, n: nat)
    requires s != "" && n == ChunkLength(s, LINE_SIZE - 1)
    ensures Lines(s) == [Chomp(s[..n])] + Lines(s[n..])
  {
  }

  lemma FirstLineParsed(p: Parse, ls: seq<string>, line: string, rest: seq<string>)
    requires ls == [line] + rest
    ensures ParseLines(p, ls) == ParseLines(ParseLine(p, line), rest)
  {
    hide ParseLine;
    assert ls[1..] == rest;
  }

  /** One turn of the fgets loop. */
  lemma OneLine(p: Parse, content: string, pos: nat)
    requires pos < |content|
    ensures var n := ChunkLength(content[pos..], LINE_SIZE - 1);
            && 0 < n && pos + n <= |content|
            && ParseLines(p, Lines(content[pos..]))
               == ParseLines(ParseLine(p, Chomp(content[pos..pos + n])), Lines(content[pos + n..]))
  {
    hide ParseLine, ParseLines, Chomp, Lines;
    var n := ChunkLength(content[pos..], LINE_SIZE - 1);
    LinesHead(content[pos..], n);
    assert content[pos..][..n] == content[pos..pos + n];
    assert content[pos..][n..] == content[pos + n..];
    FirstLineParsed(p, Lines(content[pos..]), Chomp(content[pos..pos + n]), Lines(content[pos + n..]));
  }

  /** The fgets loop on one open file, writing into a slot of the array. */
  method ReadFile(apps: array<App>, slot: nat, content: string)
    requires slot < apps.Length && apps[slot] == BLANK
    modifies apps
    ensures apps[..] == old(apps[..])[slot := ParseFile(content)]
  {
    hide Lines, Chomp, SetField, ParseLines;
    var inEntry, pos := false, 0;
    ghost var result := ParseLines(Parse(false, BLANK), Lines(content));
    assert content[pos..] == content;
    while pos < |content|
      invariant 0 <= pos <= |content|
      invariant apps[..] == old(apps[..])[slot := apps[slot]]
      invariant ParseLines(Parse(inEntry, apps[slot]), Lines(content[pos..])) == result
      decreases |content| - pos
    {
      OneLine(Parse(inEntry, apps[slot]), content, pos);
      var n := ChunkLength(content[pos..], LINE_SIZE - 1);
      var line := Chomp(content[pos..pos + n]);
      pos := pos + n;
      if line == HEADER {
        inEntry := true;
      } else if "[" <= line {
        inEntry := false;
      } else if inEntry {
        StoreField(apps, slot, line);
      }
    }
    NoLinesLeft(Parse(inEntry, apps[slot]), content[pos..]);
    EndCommand(apps, slot);
  }

  lemma NoLinesLeft(p: Parse, rest: string)
    requires rest == ""
    ensures ParseLines(p, Lines(rest)) == p
  {
  }

  /** Cut the command before the byte in front of its first '%', unless the '%' comes first. */
  method EndCommand(apps: array<App>, slot: nat)
    requires slot < apps.Length
    modifies apps
    ensures apps[..] == old(apps[..])[slot := old(apps[slot]).(exec := StripPercent(old(apps[slot]).exec))]
  {
    var exec := apps[slot].exec;
    var pct := IndexOf(exec, '%');
    if pct > 0 {
      apps[slot] := apps[slot].(exec := exec[..pct - 1]);
    }
  }

  /** The three key tests of the loop body. */
  method StoreField(apps: array<App>, slot: nat, line: string)
    requires slot < apps.Length
    modifies apps
    ensures apps[..] == old(apps[..])[slot := SetField(old(apps[slot]), line)]
  {
    assert "Name=" <= line ==> line[0] == 'N';
    assert "Exec=" <= line ==> line[0] == 'E';
    assert "Icon=" <= line ==> line[0] == 'I';
    if "Name=" <= line { apps[slot] := apps[slot].(name := Strncpy(line[5..], 63)); }
    if "Exec=" <= line { apps[slot] := apps[slot].(exec := Strncpy(line[5..], 255)); }
    if "Icon=" <= line { apps[slot] := apps[slot].(icon := Strncpy(line[5..], 63)); }
  }

  /** realloc: the first `count` entries move, the rest of the new array is arbitrary. */
  method Grow(apps: array<App>, count: nat, cap: nat) returns (bigger: array<App>)
    requires count <= apps.Length <= cap
    ensures fresh(bigger) && bigger.Length == cap && bigger[..count] == apps[..count]
  {
    bigger := new App[cap];
    forall i | 0 <= i < count { bigger[i] := apps[i]; }
  }

  /** Loading one file into the next free slot: the slot is cleared first, so nothing of an earlier file stays in it. */
  method FillSlot(table: array<App>, count: nat, ent: Entry) returns (next: nat)
    requires count < table.Length && Contains(ent.fileName, ".desktop")
    modifies table
    ensures count <= next <= table.Length
    ensures table[..next] == old(table[..count]) + Contribution(ent)
  {
    hide ParseFile, Contains;
    table[count] := BLANK;
    if ent.content.None? { return count; }
    ReadFile(table, count, ent.content.value);
    next := if table[count].name != "" && table[count].exec != "" then count + 1 else count;
  }

  lemma NoContribution(e: Entry)
    ensures !Contains(e.fileName, ".desktop") ==> Contribution(e) == []
  {
  }

  lemma ApplicationsStep(es: seq<Entry>, k: nat)
    requires k < |es|
    ensures Applications(es[..k + 1]) == Applications(es[..k]) + Contribution(es[k])
  {
    assert es[..k + 1][..k] == es[..k];
  }

  class Shell {
    var apps: array<App>
    var appCount: nat

    ghost predicate Valid()
      reads this
    {
      appCount <= apps.Length
    }

    constructor ()
      ensures Valid() && appCount == 0
    {
      apps := new App[0];
      appCount := 0;
    }

    /** luna_apps_load: `listing` is what readdir yields, or None when the directory cannot be opened. */
    method AppsLoad(listing: Option<seq<Entry>>) returns (count: nat)
      requires Valid()
      modifies this
      ensures Valid()
      ensures listing.None? ==> count == 0 && apps == old(apps) && appCount == old(appCount)
      ensures listing.Some? ==>
                fresh(apps) && count == appCount && apps[..count] == Applications(listing.value)
    {
      if listing.None? { return 0; }
      var es := listing.value;
      var table := new App[16];
      var cap := 16;
      count := 0;
      var k := 0;
      while k < |es|
        invariant 0 <= k <= |es|
        invariant fresh(table) && table.Length == cap && 16 <= cap && count <= cap
        invariant table[..count] == Applications(es[..k])
      {
        hide ParseFile, Contains, Applications, Contribution;
        NoContribution(es[k]);
        var ent := es[k];
        ApplicationsStep(es, k);
        k := k + 1;
        if !Contains(ent.fileName, ".desktop") { continue; }
        if count >= cap {
          cap := cap * 2;
          table := Grow(table, count, cap);
        }
        count := FillSlot(table, count, ent);
      }
      assert es[..k] == es;
      apps, appCount := table, count;
    }
  }
}
