/** Working-directory strings: how abspath edits one in place, and what it means on lists of names. */
module Paths {

  predicate IsSeparator(c: char) {
    c == '/' || c == '\\'
  }

  // ---------- what a path means ----------

  /** The place of the first separator, or the length. */
  function FirstSeparator(s: string): (i: nat)
    ensures i <= |s|
    ensures forall j | 0 <= j < i :: !IsSeparator(s[j])
    ensures i < |s| ==> IsSeparator(s[i])
  {
    if s == "" || IsSeparator(s[0]) then 0 else 1 + FirstSeparator(s[1..])
  }

  /** The names between separators; a separator at the end adds none. */
  function Components(s: string): seq<string>
    decreases |s|
  {
    if s == "" then [] else
      var i := FirstSeparator(s);
      if i == |s| then [s] else [s[..i]] + Components(s[i + 1..])
  }

  /** "." stays, ".." goes up and stops at the root, any other name goes down. */
  function Walk(dir: seq<string>, name: string): seq<string> {
    if name == "." then dir
    else if name == ".." then (if dir == [] then [] else dir[..|dir| - 1])
    else dir + [name]
  }

  function WalkAll(dir: seq<string>, names: seq<string>): seq<string>
    decreases |names|
  {
    if names == [] then dir else WalkAll(Walk(dir, names[0]), names[1..])
  }

  /** Where a path leads from directory dir. */
  function Resolve(dir: seq<string>, path: string): seq<string> {
    if path != "" && IsSeparator(path[0]) then WalkAll([], Components(path[1..])) else WalkAll(dir, Components(path))
  }

  /** The canonical string of a directory: every name followed by a slash, after the root's. */
  function Canonical(dir: seq<string>): (s: string)
    ensures |s| > 0
  {
    if dir == [] then "/" else Canonical(dir[..|dir| - 1]) + dir[|dir| - 1] + "/"
  }

  predicate ProperName(name: string) {
    name != "" && name != "." && name != ".." && forall i | 0 <= i < |name| :: !IsSeparator(name[i])
  }

  predicate Proper(dir: seq<string>) {
    forall i | 0 <= i < |dir| :: ProperName(dir[i])
  }

  predicate NoEmptyNames(names: seq<string>) {
    forall i | 0 <= i < |names| :: names[i] != ""
  }

  // ---------- facts about them ----------

  lemma {:induction false} ComponentsHaveNoSeparators(s: string, i: nat)
    requires i < |Components(s)|
    ensures forall j | 0 <= j < |Components(s)[i]| :: !IsSeparator(Components(s)[i][j])
    decreases |s|
  {
    var k := FirstSeparator(s);
    if k < |s| && i > 0 {
      ComponentsHaveNoSeparators(s[k + 1..], i - 1);
    }
  }

  lemma {:induction false} WalkAllProper(dir: seq<string>, names: seq<string>)
    requires Proper(dir) && NoEmptyNames(names)
    requires forall i | 0 <= i < |names| :: forall j | 0 <= j < |names[i]| :: !IsSeparator(names[i][j])
    ensures Proper(WalkAll(dir, names))
    decreases |names|
  {
    if names != [] {
      assert Proper(Walk(dir, names[0]));
      WalkAllProper(Walk(dir, names[0]), names[1..]);
    }
  }

  /** No "." or ".." or empty name survives. */
  lemma ResolveProper(dir: seq<string>, path: string)
    requires Proper(dir) && NoEmptyNames(Components(if path != "" && IsSeparator(path[0]) then path[1..] else path))
    ensures Proper(Resolve(dir, path))
  {
    var absolute := path != "" && IsSeparator(path[0]);
    var names := Components(if absolute then path[1..] else path);
    forall i: nat | i < |names|
      ensures forall j | 0 <= j < |names[i]| :: !IsSeparator(names[i][j])
    {
      ComponentsHaveNoSeparators(if absolute then path[1..] else path, i);
    }
    WalkAllProper(if absolute then [] else dir, names);
  }

  /** A canonical string ends in its only last slash. */
  lemma CanonicalEnds(dir: seq<string>)
    ensures Canonical(dir)[|Canonical(dir)| - 1] == '/'
  {}

  lemma FirstSeparatorIs(s: string, i: nat)
    requires i <= |s| && (i < |s| ==> IsSeparator(s[i])) && forall j | 0 <= j < i :: !IsSeparator(s[j])
    ensures FirstSeparator(s) == i
  {}

  /** A path cut at its first separator. */
  lemma ComponentsCut(s: string, i: nat)
    requires i < |s| && IsSeparator(s[i]) && forall j | 0 <= j < i :: !IsSeparator(s[j])
    ensures Components(s) == [s[..i]] + Components(s[i + 1..])
  {
    hide Components;
    FirstSeparatorIs(s, i);
    ComponentsUnfold(s);
  }

  lemma ComponentsUnfold(s: string)
    requires FirstSeparator(s) < |s|
    ensures Components(s) == [s[..FirstSeparator(s)]] + Components(s[FirstSeparator(s) + 1..])
  {
    hide FirstSeparator, IsSeparator;
  }

  lemma OneName(name: string)
    requires ProperName(name)
    ensures Components(name + "/") == [name]
  {
    var t := name + "/";
    ComponentsCut(t, |name|);
    assert t[..|name|] == name && t[|name| + 1..] == "";
  }

  /** A path cut behind a separator. */
  lemma {:induction false} ComponentsJoin(s: string, q: string)
    requires s == "" || IsSeparator(s[|s| - 1])
    ensures Components(s + q) == Components(s) + Components(q)
    decreases |s|
  {
    hide Components, FirstSeparator;
    if s == "" {
      assert s + q == q;
      NoComponents();
    } else {
      var i := FirstSeparator(s);
      var t := s + q;
      SeparatorFound(s);
      ComponentsCut(s, i);
      ComponentsCut(t, i);
      assert t[..i] == s[..i];
      assert t[i + 1..] == s[i + 1..] + q;
      ComponentsJoin(s[i + 1..], q);
    }
  }

  lemma SeparatorFound(s: string)
    requires s != "" && IsSeparator(s[|s| - 1])
    ensures FirstSeparator(s) < |s|
  {}

  /** A separator at the end adds no name. */
  lemma {:induction false} ComponentsEnd(s: string, c: char)
    requires s != "" && !IsSeparator(s[|s| - 1]) && IsSeparator(c)
    ensures Components(s + [c]) == Components(s)
    decreases |s|
  {
    hide FirstSeparator;
    var i, t := FirstSeparator(s), s + [c];
    if i == |s| {
      ComponentsCut(t, i);
      assert t[..i] == s && t[i + 1..] == "";
    } else {
      ComponentsCut(t, i);
      assert t[..i] == s[..i];
      assert t[i + 1..] == s[i + 1..] + [c];
      ComponentsEnd(s[i + 1..], c);
    }
  }

  lemma NoComponents()
    ensures Components("") == []
  {}

  /** Reading a canonical string back gives the directory. */
  lemma {:induction false} CanonicalReads(dir: seq<string>)
    requires Proper(dir)
    ensures Components(Canonical(dir)[1..]) == dir
  {
    hide Components, FirstSeparator, ProperName;
    if dir == [] {
      NoComponents();
    } else {
      var init, last := dir[..|dir| - 1], dir[|dir| - 1];
      CanonicalReads(init);
      CanonicalEnds(init);
      var s := Canonical(init);
      assert Canonical(dir)[1..] == s[1..] + (last + "/");
      ComponentsJoin(s[1..], last + "/");
      OneName(last);
    }
  }

  /** Two proper directories with the same canonical string are the same. */
  lemma CanonicalInjective(dir: seq<string>, other: seq<string>)
    requires Proper(dir) && Proper(other) && Canonical(dir) == Canonical(other)
    ensures dir == other
  {
    CanonicalReads(dir);
    CanonicalReads(other);
  }

  // ---------- laws of paths ----------

  predicate Relative(path: string) {
    path == "" || !IsSeparator(path[0])
  }

  lemma {:induction false} WalkInTwo(dir: seq<string>, a: seq<string>, b: seq<string>)
    ensures WalkAll(dir, a + b) == WalkAll(WalkAll(dir, a), b)
    decreases |a|
  {
    if a == [] {
      assert a + b == b;
    } else {
      assert (a + b)[0] == a[0] && (a + b)[1..] == a[1..] + b;
      WalkInTwo(Walk(dir, a[0]), a[1..], b);
    }
  }

  /** A name alone, of one directory or of a thing in it. */
  lemma OneComponent(name: string)
    requires name != "" && forall i | 0 <= i < |name| :: !IsSeparator(name[i])
    ensures Components(name) == [name]
  {
    FirstSeparatorIs(name, |name|);
  }

  /** A proper name leads one directory down, and ".." leads back. */
  lemma NameAndBack(dir: seq<string>, name: string)
    requires ProperName(name)
    ensures Resolve(dir, name) == dir + [name]
    ensures Resolve(Resolve(dir, name), "..") == dir
  {
    OneComponent(name);
    OneComponent("..");
    assert WalkAll(dir, [name]) == WalkAll(Walk(dir, name), []);
    assert WalkAll(dir + [name], [".."]) == WalkAll(Walk(dir + [name], ".."), []);
  }

  /** "." leads nowhere, and ".." does not lead out of the root. */
  lemma DotAndRoot(dir: seq<string>)
    ensures Resolve(dir, ".") == dir && Resolve(dir, "") == dir && Resolve([], "..") == []
  {
    OneComponent(".");
    OneComponent("..");
    NoComponents();
    assert WalkAll(dir, ["."]) == WalkAll(Walk(dir, "."), []);
    assert WalkAll([], [".."]) == WalkAll(Walk([], ".."), []);
  }

  /** An absolute path leads to the same place from everywhere: where the rest of it leads from the root. */
  lemma AbsoluteIgnoresStart(dir: seq<string>, path: string)
    ensures Resolve(dir, "/" + path) == Resolve(dir, "\\" + path) == Resolve([], "/" + path)
    ensures Relative(path) ==> Resolve(dir, "/" + path) == Resolve([], path)
  {
    assert ("/" + path)[1..] == path && ("\\" + path)[1..] == path;
  }

  /** Following a path is following its parts, one after the other. */
  lemma ResolveInTwo(dir: seq<string>, path: string, rest: string)
    requires path != "" && !IsSeparator(path[|path| - 1]) && Relative(rest)
    ensures Resolve(dir, path + "/" + rest) == Resolve(dir, path + "\\" + rest) == Resolve(Resolve(dir, path), rest)
  {
    ResolveParts(dir, path, '/', rest);
    ResolveParts(dir, path, '\\', rest);
  }

  lemma ResolveParts(dir: seq<string>, path: string, c: char, rest: string)
    requires path != "" && !IsSeparator(path[|path| - 1]) && Relative(rest) && IsSeparator(c)
    ensures Resolve(dir, path + [c] + rest) == Resolve(Resolve(dir, path), rest)
  {
    hide Components, Walk;
    var whole := path + [c] + rest;
    var absolute := IsSeparator(path[0]);
    var from: seq<string>, tail: string := if absolute then [] else dir, if absolute then path[1..] else path;
    assert (if absolute then whole[1..] else whole) == tail + [c] + rest;
    ComponentsJoin(tail + [c], rest);
    ComponentsEnd(tail, c);
    WalkInTwo(from, Components(tail), Components(rest));
  }

  /** An empty name counts as a name: two separators in a row are not one. */
  lemma DoubledSeparator()
    ensures Resolve([], "a//b") == ["a", "", "b"] && Resolve(Resolve([], "a"), "b") == ["a", "b"]
  {
    OneComponent("a");
    OneComponent("b");
    ComponentsCut("a//b", 1);
    assert "a//b"[..1] == "a" && "a//b"[2..] == "/b";
    ComponentsCut("/b", 0);
    assert "/b"[..0] == "" && "/b"[1..] == "b";
    assert Components("a//b") == ["a", "", "b"];
    assert WalkAll([], ["a", "", "b"]) == WalkAll(["a"], ["", "b"]) == WalkAll(["a", ""], ["b"]) == WalkAll(["a", "", "b"], []);
    assert WalkAll([], ["a"]) == WalkAll(["a"], []) && WalkAll(["a"], ["b"]) == WalkAll(["a", "b"], []);
  }

  /** The string of a directory: the root's slash, and every name with a slash behind it. */
  lemma CanonicalGrows(dir: seq<string>, name: string)
    ensures Canonical([]) == "/" && Canonical(dir + [name]) == Canonical(dir) + name + "/"
  {
    assert (dir + [name])[..|dir|] == dir;
  }
}
