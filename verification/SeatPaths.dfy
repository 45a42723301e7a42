/**
 * Where a path that the daemon accepts leads: its components are walked from the root, with '..'
 * read as the parent directory. Symbolic links are not followed.
 */
module SeatPaths {
  import opened Words
  import opened Seatd
  import opened Paths

  /** The directory after one component. */
  function Enter(dir: seq<string>, c: string): seq<string> {
    if c == "" || c == "." then dir
    else if c == ".." then (if dir == [] then [] else dir[..|dir| - 1])
    else dir + [c]
  }

  function Walk(dir: seq<string>, cs: seq<string>): seq<string> {
    if cs == [] then dir else Enter(Walk(dir, cs[..|cs| - 1]), cs[|cs| - 1])
  }

  function Resolve(path: string): seq<string> { Walk([], Split(path)) }

  /** How many components are names, and how many go up. */
  function Names(cs: seq<string>): nat {
    if cs == [] then 0
    else
      var c := cs[|cs| - 1];
      Names(cs[..|cs| - 1]) + if c == "" || c == "." || c == ".." then 0 else 1
  }

  function Ups(cs: seq<string>): nat {
    if cs == [] then 0 else Ups(cs[..|cs| - 1]) + if cs[|cs| - 1] == ".." then 1 else 0
  }

  /** The walk never leaves the directory it starts in. */
  ghost predicate StaysIn(base: seq<string>, cs: seq<string>) {
    forall k: nat :: k <= |cs| ==> base <= Walk(base, cs[..k])
  }

  /** Nowhere along the way have more components gone up than down. */
  ghost predicate NeverAbove(cs: seq<string>) {
    forall k: nat :: k <= |cs| ==> Ups(cs[..k]) <= Names(cs[..k])
  }

  lemma {:induction false} DepthOfWalk(base: seq<string>, cs: seq<string>)
    requires base != [] && NeverAbove(cs)
    ensures base <= Walk(base, cs) && |Walk(base, cs)| == |base| + Names(cs) - Ups(cs)
  {
    assert cs[..|cs|] == cs;
    if cs != [] {
      var before := cs[..|cs| - 1];
      assert forall k: nat :: k <= |before| ==> before[..k] == cs[..k];
      DepthOfWalk(base, before);
    }
  }

  /** The first component that goes up too far leads out. */
  lemma {:induction false} StaysInExactly(base: seq<string>, cs: seq<string>)
    requires base != []
    ensures StaysIn(base, cs) <==> NeverAbove(cs)
    decreases |cs|
  {
    assert cs[..|cs|] == cs;
    if cs != [] {
      var before := cs[..|cs| - 1];
      assert forall k: nat :: k <= |before| ==> before[..k] == cs[..k];
      assert forall k: nat :: k <= |cs| ==> k <= |before| || cs[..k] == cs;
      StaysInExactly(base, before);
      if NeverAbove(before) { DepthOfWalk(base, before); }
    }
  }

  lemma {:induction false} WalkConcat(dir: seq<string>, a: seq<string>, b: seq<string>)
    ensures Walk(dir, a + b) == Walk(Walk(dir, a), b)
  {
    if b == [] {
      assert a + b == a;
    } else {
      assert (a + b)[..|a + b| - 1] == a + b[..|b| - 1];
      WalkConcat(dir, a, b[..|b| - 1]);
    }
  }

  /** The directory an accepted path starts in, and what follows it. */
  function Base(path: string): seq<string>
    requires Allowed(path)
  {
    if "/dev/dri/" <= path then ["dev", "dri"] else ["dev", "input"]
  }

  function Rest(path: string): string
    requires Allowed(path)
  {
    if "/dev/dri/" <= path then path[9..] else path[11..]
  }

  lemma ResolveAllowed(path: string)
    requires Allowed(path)
    ensures Resolve(path) == Walk(Base(path), Split(Rest(path)))
  {
    hide Split, Walk;
    var name := if "/dev/dri/" <= path then "dri" else "input";
    assert "/dev" + "/" + "dri" + "/" == "/dev/dri/" && "/dev" + "/" + "input" + "/" == "/dev/input/";
    SplitBelow(path, name);
    WalkConcat([], ["", "dev", name], Split(Rest(path)));
    WalkThree(name);
  }

  lemma WalkThree(name: string)
    requires name == "dri" || name == "input"
    ensures Walk([], ["", "dev", name]) == ["dev", name]
  {
    var cs := ["", "dev", name];
    assert cs[..2][..1] == [""] && cs[..2] == ["", "dev"] && [""][..0] == [];
    assert Walk([], [""]) == [];
    assert Walk([], cs[..2]) == ["dev"];
  }

  /**
   * A path that passes the prefix test stays in its directory all the way exactly when no part of
   * it goes up more often than down, and then it ends there too.
   */
  lemma AllowedStaysExactly(path: string)
    requires Allowed(path)
    ensures StaysIn(Base(path), Split(Rest(path))) <==> NeverAbove(Split(Rest(path)))
    ensures NeverAbove(Split(Rest(path))) ==> Base(path) <= Resolve(path)
  {
    ResolveAllowed(path);
    StaysInExactly(Base(path), Split(Rest(path)));
    if NeverAbove(Split(Rest(path))) { DepthOfWalk(Base(path), Split(Rest(path))); }
  }

  /** An accepted path that ends outside, so that its descriptor would be granted. */
  lemma DotDotLeaves(socket: int32, fd: int32)
    ensures var path := "/dev/dri/../mem";
            && OpenAnswer(socket, path, Fd(fd)) == Reply(socket, 0, true)
            && Resolve(path) == ["dev", "mem"] && !NeverAbove(Split(Rest(path)))
  {
    hide Split, Walk, Ups, Names;
    var path := "/dev/dri/../mem";
    assert path == "/dev/dri/" + "../mem" && path[..9] == "/dev/dri/";
    assert path[9..] == "../mem" && "../mem" == ".." + "/" + "mem";
    ResolveAllowed(path);
    SplitAtSlash("..", "mem");
    NameIsComponent("..");
    NameIsComponent("mem");
    UpAndBack();
    assert Rest(path) == ".." + "/" + "mem";
    assert Split(Rest(path)) == [".."] + ["mem"] == ["..", "mem"];
    assert Split(Rest(path))[..1] == [".."];
  }

  lemma UpAndBack()
    ensures Walk(["dev", "dri"], ["..", "mem"]) == ["dev", "mem"]
    ensures Ups([".."]) == 1 && Names([".."]) == 0
  {
    assert ["..", "mem"][..1] == [".."] && [".."][..0] == [];
    assert Walk(["dev", "dri"], [".."]) == ["dev"];
  }
}
