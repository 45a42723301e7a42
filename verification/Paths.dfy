/** Paths as sequences of components. */
module Paths {
  /** The components of a path, empty ones included. */
  function Split(s: string): (cs: seq<string>)
    ensures |cs| >= 1
  {
    if s == "" then [""]
    else if s[0] == '/' then [""] + Split(s[1..])
    else
      var cs := Split(s[1..]);
      [[s[0]] + cs[0]] + cs[1..]
  }

  /** A path with several components is its first one, a slash and a path with the others. */
  lemma {:induction false} FirstComponent(s: string) returns (t: string)
    requires |Split(s)| >= 2
    ensures s == Split(s)[0] + "/" + t && Split(t) == Split(s)[1..]
  {
    if s[0] == '/' {
      t := s[1..];
    } else {
      t := FirstComponent(s[1..]);
      var first := Split(s[1..])[0];
      assert s == [s[0]] + (first + "/" + t) == ([s[0]] + first) + "/" + t;
    }
  }

  lemma {:induction false} SplitAtSlash(a: string, b: string)
    ensures Split(a + "/" + b) == Split(a) + Split(b)
  {
    var s := a + "/" + b;
    if a == "" {
      assert s[0] == '/' && s[1..] == b;
    } else {
      assert s[0] == a[0] && s[1..] == a[1..] + "/" + b;
      SplitAtSlash(a[1..], b);
    }
  }

  lemma {:induction false} NameIsComponent(name: string)
    requires '/' !in name
    ensures Split(name) == [name]
  {
    if name != "" {
      assert name[0] != '/';
      NameIsComponent(name[1..]);
      assert [name[0]] + name[1..] == name;
    }
  }

  /** A path below /dev/dri or /dev/input: absolute, with those two first names and something after them. */
  predicate BelowDevices(path: string) {
    var cs := Split(path);
    |cs| >= 4 && cs[0] == "" && cs[1] == "dev" && (cs[2] == "dri" || cs[2] == "input")
  }

  lemma SplitDir(name: string)
    requires name == "dri" || name == "input"
    ensures Split("/dev" + "/" + name) == ["", "dev", name]
  {
    hide Split;
    assert "/dev" == "" + "/" + "dev";
    SplitAtSlash("/dev", name);
    SplitAtSlash("", "dev");
    NameIsComponent("");
    NameIsComponent("dev");
    NameIsComponent(name);
  }

  /** The components of a path that starts with the directory. */
  lemma SplitBelow(path: string, name: string)
    requires name == "dri" || name == "input"
    requires "/dev" + "/" + name + "/" <= path
    ensures var dir := "/dev" + "/" + name + "/";
            Split(path) == ["", "dev", name] + Split(path[|dir|..])
  {
    hide Split;
    var dir := "/dev" + "/" + name;
    assert path == dir + "/" + path[|dir| + 1..];
    SplitAtSlash(dir, path[|dir| + 1..]);
    SplitDir(name);
  }

  /** The prefix test of the daemon, on characters, is that test on components. */
  lemma PrefixIsBelow(path: string)
    ensures "/dev/dri/" <= path || "/dev/input/" <= path <==> BelowDevices(path)
  {
    hide Split;
    assert "/dev/dri/" == "/dev" + "/" + "dri" + "/" && "/dev/input/" == "/dev" + "/" + "input" + "/";
    if "/dev/dri/" <= path { SplitBelow(path, "dri"); }
    if "/dev/input/" <= path { SplitBelow(path, "input"); }
    if BelowDevices(path) {
      var a := FirstComponent(path);
      var b := FirstComponent(a);
      var c := FirstComponent(b);
      assert path == "/dev/" + Split(path)[2] + "/" + c;
    }
  }
}
