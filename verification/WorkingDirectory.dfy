/** abspath: the working-directory buffer edited in place, cursor by cursor. */
module WorkingDirectory {
  import opened Paths

  const EOS: char := '\0'

  /** Buffer a holds s, terminated. */
  ghost predicate Holds(a: array<char>, s: string)
    reads a
  {
    |s| < a.Length && a[..|s|] == s && a[|s|] == EOS
  }

  /** Characters that a name can have. */
  ghost predicate Plain(name: string) {
    forall i | 0 <= i < |name| :: !IsSeparator(name[i]) && name[i] != EOS
  }

  ghost predicate AllPlain(dir: seq<string>) {
    forall i | 0 <= i < |dir| :: Plain(dir[i])
  }

  ghost predicate NoEnd(s: string) {
    forall i | 0 <= i < |s| :: s[i] != EOS
  }

  lemma {:induction false} CanonicalNoEnd(dir: seq<string>)
    requires AllPlain(dir)
    ensures NoEnd(Canonical(dir))
  {
    if dir != [] {
      CanonicalNoEnd(dir[..|dir| - 1]);
    }
  }

  // ---------- the string helpers ----------

  /** The last separator of the string in a, or -1. */
  method LastSeparator(a: array<char>, ghost s: string) returns (last: int)
    requires Holds(a, s) && NoEnd(s)
    ensures -1 <= last < |s|
    ensures last >= 0 ==> IsSeparator(s[last])
    ensures forall j | last < j < |s| :: !IsSeparator(s[j])
  {
    last := -1;
    var i := 0;
    assert forall k | 0 <= k < |s| :: a[k] == s[k];
    while a[i] != EOS
      invariant i <= |s| && last < i && -1 <= last && a[..|s|] == s
      invariant last >= 0 ==> IsSeparator(s[last])
      invariant forall j | last < j < i :: !IsSeparator(s[j])
      decreases |s| - i
    {
      assert a[i] == s[i];
      if IsSeparator(a[i]) {
        last := i;
      }
      i := i + 1;
    }
  }

  /** The first separator of the string in a at or after place p, or -1. */
  method NextSeparator(a: array<char>, p: nat, ghost n: nat) returns (r: int)
    requires p <= n < a.Length && a[n] == EOS && forall i | p <= i < n :: a[i] != EOS
    ensures r == -1 || p <= r < n
    ensures r >= 0 ==> IsSeparator(a[r]) && forall j | p <= j < r :: !IsSeparator(a[j])
    ensures r == -1 ==> forall j | p <= j < n :: !IsSeparator(a[j])
  {
    var i := p;
    while true
      invariant p <= i <= n && forall j | p <= j < i :: !IsSeparator(a[j])
      decreases n - i
    {
      if IsSeparator(a[i]) {
        return i;
      }
      if a[i] == EOS {
        return -1;
      }
      i := i + 1;
    }
  }

  /**
   * strncpy of count characters from place p of src to place at of dest: up to the end of the string in src, or one less than
   * count characters; then a terminator. n is how many characters were copied before it.
   */
  method CopyPart(dest: array<char>, at: nat, src: array<char>, p: nat, count: nat) returns (ghost n: nat)
    requires dest != src && count > 0 && at + count <= dest.Length
    requires p + count <= src.Length || exists i :: p <= i < src.Length && src[i] == EOS
    modifies dest
    ensures n < count && p + n < src.Length && forall i | p <= i < p + n :: src[i] != EOS
    ensures n == count - 1 || src[p + n] == EOS
    ensures dest[..at] == old(dest[..at]) && dest[at..at + n] == src[p..p + n] && dest[at + n] == EOS
    ensures n < count - 1 ==> dest[at + n + 1..] == old(dest[at + n + 1..])
  {
    var nr := 0;
    while nr < count
      invariant nr <= count && dest[..at] == old(dest[..at])
      invariant p + nr <= src.Length && forall i | p <= i < p + nr :: src[i] != EOS
      invariant dest[at..at + nr] == src[p..p + nr]
      invariant forall i | at + nr <= i < dest.Length :: dest[i] == old(dest[i])
    {
      dest[at + nr] := src[p + nr];
      if src[p + nr] == EOS {
        return nr;
      }
      nr := nr + 1;
    }
    n := count - 1;
    dest[at + count - 1] := EOS;
  }

  // ---------- up and down ----------

  /** Drop the last name, or stay at the root: cut the slash, find the one before it, end the string behind it. */
  method Up(pwd: array<char>, cur: nat, ghost dir: seq<string>) returns (to: nat)
    requires AllPlain(dir) && Holds(pwd, Canonical(dir)) && cur == |Canonical(dir)|
    modifies pwd
    ensures Holds(pwd, Canonical(Walk(dir, ".."))) && to == |Canonical(Walk(dir, ".."))| && to <= cur
  {
    to := cur;
    assert cur == 1 <==> dir == [] by {
      if dir != [] {
        assert |Canonical(dir[..|dir| - 1])| > 0;
      }
    }
    if cur - 1 != 0 {
      ghost var init, last := dir[..|dir| - 1], dir[|dir| - 1];
      ghost var s := Canonical(init) + last;
      CanonicalNoEnd(init);
      CanonicalEnds(init);
      pwd[cur - 1] := EOS;
      assert Holds(pwd, s) by {
        assert pwd[..cur - 1] == Canonical(dir)[..cur - 1];
      }
      var r := LastSeparator(pwd, s);
      LastSlash(Canonical(init), last, r);
      to := r + 1;
      pwd[to] := EOS;
      assert pwd[..to] == s[..to] == Canonical(init);
    }
  }

  lemma LastSlash(s: string, name: string, r: int)
    requires s != "" && IsSeparator(s[|s| - 1]) && Plain(name)
    requires -1 <= r < |s + name| && (r >= 0 ==> IsSeparator((s + name)[r]))
    requires forall j | r < j < |s + name| :: !IsSeparator((s + name)[j])
    ensures r == |s| - 1
  {
    assert (s + name)[|s| - 1] == s[|s| - 1];
    assert forall j | |s| <= j < |s + name| :: (s + name)[j] == name[j - |s|];
  }

  /** Append the name at place p of path with the slash that follows it. */
  method Down(pwd: array<char>, cur: nat, path: array<char>, p: nat, len: nat, ghost dir: seq<string>, ghost name: string)
    requires pwd != path && Holds(pwd, Canonical(dir)) && cur == |Canonical(dir)|
    requires len == |name| + 1 && cur + len + 1 <= pwd.Length && p + len + 1 <= path.Length
    requires path[p..p + len] == name + "/" && Plain(name)
    modifies pwd
    ensures Holds(pwd, Canonical(dir + [name])) && cur + len == |Canonical(dir + [name])|
  {
    assert forall i | p <= i < p + len :: path[i] == (name + "/")[i - p];
    ghost var copied := CopyPart(pwd, cur, path, p, len + 1);
    assert pwd[..cur + len] == pwd[..cur] + pwd[cur..cur + len];
    assert (dir + [name])[..|dir|] == dir;
    assert pwd[..cur + len] == Canonical(dir) + (name + "/");
    assert Canonical(dir) + (name + "/") == Canonical(dir) + name + "/";
  }

  // ---------- the whole call ----------

  /** The place of the terminator of a path. */
  ghost predicate PathText(path: array<char>, text: string)
    reads path
  {
    path.Length == |text| + 1 && path[..|text|] == text && path[|text|] == EOS && NoEnd(text)
  }

  /** What the loop keeps: the working string is that of here, from which the rest of the path leads to the goal. */
  ghost predicate Going(pwd: array<char>, cur: nat, here: seq<string>, rest: string, goal: seq<string>)
    reads pwd
  {
    && AllPlain(here) && Holds(pwd, Canonical(here)) && cur == |Canonical(here)|
    && WalkAll(here, Components(rest)) == goal
  }

  lemma StepForward(here: seq<string>, rest: string, i: nat)
    requires i < |rest| && IsSeparator(rest[i]) && forall j | 0 <= j < i :: !IsSeparator(rest[j])
    ensures WalkAll(here, Components(rest)) == WalkAll(Walk(here, rest[..i]), Components(rest[i + 1..]))
  {
    ComponentsCut(rest, i);
  }

  lemma StepLast(here: seq<string>, rest: string)
    requires rest != "" && forall j | 0 <= j < |rest| :: !IsSeparator(rest[j])
    ensures WalkAll(here, Components(rest)) == Walk(here, rest)
  {
    FirstSeparatorIs(rest, |rest|);
    assert WalkAll(Walk(here, rest), []) == Walk(here, rest);
  }

  /** One name of the path, between places p and ptr, where a separator stands that has become a slash. */
  method OneStep(pwd: array<char>, cur: nat, path: array<char>, p: nat, ptr: nat, ghost here: seq<string>, ghost name: string)
    returns (to: nat)
    requires pwd != path && AllPlain(here) && Holds(pwd, Canonical(here)) && cur == |Canonical(here)|
    requires p <= ptr < path.Length - 1 && path[p..ptr] == name && path[ptr] == '/' && Plain(name)
    requires cur + (ptr - p + 1) + 1 <= pwd.Length
    modifies pwd
    ensures AllPlain(Walk(here, name)) && Holds(pwd, Canonical(Walk(here, name)))
    ensures to == |Canonical(Walk(here, name))| && to <= cur + (ptr - p + 1)
  {
    var len := ptr - p + 1;
    assert forall i | p <= i < ptr :: path[i] == name[i - p];
    if path[p] == '.' && path[p + 1] == '/' {
      assert name == ".";
      to := cur;
    } else if path[p] == '.' && path[p + 1] == '.' && path[p + 2] == '/' {
      assert name == "..";
      to := Up(pwd, cur, here);
    } else {
      assert name != "." && name != "..";
      assert path[p..p + len] == name + "/";
      Down(pwd, cur, path, p, len, here, name);
      to := cur + len;
    }
  }

  /** Append the rest of the path, and a slash. */
  method AppendLast(pwd: array<char>, cur: nat, path: array<char>, p: nat, ghost here: seq<string>, ghost rest: string)
    requires pwd != path && Holds(pwd, Canonical(here)) && cur == |Canonical(here)|
    requires p + |rest| + 1 == path.Length && path[p..p + |rest|] == rest && path[p + |rest|] == EOS && Plain(rest)
    requires cur + |rest| + 2 <= pwd.Length
    modifies pwd
    ensures Holds(pwd, Canonical(here + [rest]))
  {
    assert forall i | p <= i < p + |rest| :: path[i] == rest[i - p];
    var n := path.Length - 1 - p;
    ghost var copied := CopyPart(pwd, cur, path, p, n + 1);
    assert pwd[cur..cur + n] == rest;
    pwd[cur + n] := '/';
    pwd[cur + n + 1] := EOS;
    assert pwd[..cur + n + 1] == pwd[..cur] + pwd[cur..cur + n] + [pwd[cur + n]];
    assert (here + [rest])[..|here|] == here;
    assert pwd[..cur + n + 1] == Canonical(here) + rest + "/";
  }

  /** What follows the last separator of the path. */
  method LastStep(pwd: array<char>, cur: nat, path: array<char>, p: nat, ghost here: seq<string>, ghost rest: string)
    requires pwd != path && AllPlain(here) && Holds(pwd, Canonical(here)) && cur == |Canonical(here)|
    requires p + |rest| + 1 == path.Length && path[p..p + |rest|] == rest && path[p + |rest|] == EOS && Plain(rest)
    requires cur + |rest| + 2 <= pwd.Length
    modifies pwd
    ensures AllPlain(if rest == "" then here else Walk(here, rest))
    ensures Holds(pwd, Canonical(if rest == "" then here else Walk(here, rest)))
  {
    assert forall i | p <= i < p + |rest| :: path[i] == rest[i - p];
    if path[p] == EOS {
      return;
    }
    if path[p] == '.' && path[p + 1] == EOS {
      assert rest == ".";
      return;
    }
    if !(path[p] == '.' && path[p + 1] == '.' && path[p + 2] == EOS) {
      assert rest != "." && rest != "..";
      AppendLast(pwd, cur, path, p, here, rest);
      return;
    }
    assert rest == "..";
    var to := Up(pwd, cur, here);
  }

  /** Where the cursor starts: after the root's slash for an absolute path, at the end of the working directory otherwise. */
  method Start(pwd: array<char>, path: array<char>, ghost dir: seq<string>, ghost text: string)
    returns (cur: nat, p: nat, ghost here: seq<string>)
    requires pwd != path && AllPlain(dir) && Holds(pwd, Canonical(dir)) && PathText(path, text)
    requires pwd.Length >= 2
    modifies pwd
    ensures p <= 1 && p <= |text| && AllPlain(here) && Holds(pwd, Canonical(here)) && cur == |Canonical(here)| <= |Canonical(dir)|
    ensures WalkAll(here, Components(text[p..])) == Resolve(dir, text)
  {
    if IsSeparator(path[0]) {
      cur, p, here := 1, 1, [];
      CanonicalRoot(dir);
      assert pwd[0] == Canonical(dir)[0];
      pwd[cur] := EOS;
      assert path[..|text|][0] == path[0];
    } else {
      CanonicalNoEnd(dir);
      CanonicalEnds(dir);
      var last := LastSeparator(pwd, Canonical(dir));
      cur, p, here := last + 1, 0, dir;
      pwd[cur] := EOS;
      assert text[0..] == text;
      assert text != "" ==> text[0] == path[0];
    }
  }

  lemma {:induction false} CanonicalRoot(dir: seq<string>)
    ensures Canonical(dir)[0] == '/'
  {
    if dir != [] {
      CanonicalRoot(dir[..|dir| - 1]);
    }
  }

  /** Pass the separator at place r of the path. */
  method Advance(pwd: array<char>, cur: nat, path: array<char>, p: nat, r: nat, ghost here: seq<string>,
                 ghost text: string, ghost goal: seq<string>) returns (to: nat, ghost there: seq<string>)
    requires pwd != path && path.Length == |text| + 1 && p <= r < |text| && NoEnd(text)
    requires forall i | p <= i < |text| :: path[i] == text[i]
    requires IsSeparator(text[r]) && forall j | p <= j < r :: !IsSeparator(text[j])
    requires Going(pwd, cur, here, text[p..], goal) && cur + (|text| - p) + 2 <= pwd.Length
    modifies pwd, path
    ensures forall i | 0 <= i < path.Length :: path[i] == if i == r then '/' else old(path[i])
    ensures Going(pwd, to, there, text[r + 1..], goal) && to + (|text| - (r + 1)) + 2 <= pwd.Length
  {
    hide Components, WalkAll, Canonical;
    ghost var rest := text[p..];
    ghost var name := rest[..r - p];
    StepForward(here, rest, r - p);
    path[r] := '/';
    assert path[p..r] == name;
    to := OneStep(pwd, cur, path, p, r, here, name);
    there := Walk(here, name);
    assert rest[r - p + 1..] == text[r + 1..];
  }

  /** pwd holds the canonical string of directory dir, and has room for the path behind it; then it holds that of the
      directory to which the path leads. Every separator of the path that was passed is now a slash. */
  method AbsPath(pwd: array<char>, path: array<char>, ghost dir: seq<string>, ghost text: string)
    requires pwd != path && AllPlain(dir) && Holds(pwd, Canonical(dir)) && PathText(path, text)
    requires |Canonical(dir)| + |text| + 2 <= pwd.Length
    modifies pwd, path
    ensures Holds(pwd, Canonical(Resolve(dir, text)))
    ensures path.Length == |text| + 1
    ensures forall i | 0 < i < |text| :: path[i] == if IsSeparator(text[i]) then '/' else text[i]
  {
    hide Components, WalkAll, Canonical;
    var cur: nat, p: nat;
    ghost var here: seq<string>;
    ghost var goal := Resolve(dir, text);
    assert forall i | 0 <= i < |text| :: path[i] == text[i];
    cur, p, here := Start(pwd, path, dir, text);
    while path[p] != EOS
      invariant p <= |text| && path.Length == |text| + 1 && path[|text|] == EOS
      invariant forall i | p <= i < |text| :: path[i] == text[i]
      invariant forall i | 0 < i < p :: path[i] == if IsSeparator(text[i]) then '/' else text[i]
      invariant Going(pwd, cur, here, text[p..], goal)
      invariant cur + (|text| - p) + 2 <= pwd.Length
      invariant forall i | 0 <= i < |text| :: text[i] != EOS
      decreases |text| - p
    {
      var r := NextSeparator(path, p, |text|);
      if r == -1 {
        break;
      }
      cur, here := Advance(pwd, cur, path, p, r, here, text, goal);
      p := r + 1;
    }
    ghost var rest := text[p..];
    assert path[p..|text|] == rest;
    assert forall i | 0 <= i < |rest| :: rest[i] == text[p + i];
    if rest != "" {
      StepLast(here, rest);
    } else {
      NothingLeft(here);
    }
    LastStep(pwd, cur, path, p, here, rest);
  }

  lemma NothingLeft(here: seq<string>)
    ensures WalkAll(here, Components("")) == here
  {}
}
