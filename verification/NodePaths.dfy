/** Paths of the node tree: names between slashes (libcontainer/node_tree.cc splits with
    libutil/string_util.cc). */
module NodePaths {

  type Path = seq<string>

  predicate IsName(s: string) {
    s != [] && '/' !in s
  }

  predicate Names(p: Path) {
    forall i :: 0 <= i < |p| ==> IsName(p[i])
  }

  function NameLength(s: string): (n: nat)
    ensures n <= |s| && '/' !in s[..n]
    ensures n < |s| ==> s[n] == '/'
  {
    if s == [] || s[0] == '/' then 0 else 1 + NameLength(s[1..])
  }

  /** Split(path, "/"): the longest runs of other characters, so nothing for two slashes
      in a row and nothing for slashes at the ends. */
  function SplitPath(s: string): (p: Path)
    ensures Names(p)
    decreases |s|
  {
    if s == [] then []
    else if s[0] == '/' then SplitPath(s[1..])
    else
      var n := NameLength(s);
      [s[..n]] + SplitPath(s[n..])
  }

  function Join(p: Path): string {
    if p == [] then [] else "/" + p[0] + Join(p[1..])
  }

  lemma {:induction false} NameLengthOf(name: string, rest: string)
    requires '/' !in name && (rest == [] || rest[0] == '/')
    ensures NameLength(name + rest) == |name|
  {
    if name != [] {
      assert (name + rest)[1..] == name[1..] + rest;
      NameLengthOf(name[1..], rest);
    } else {
      assert name + rest == rest;
    }
  }

  /** Every list of names is the split of a path. */
  lemma {:induction false} SplitJoin(p: Path)
    requires Names(p)
    ensures SplitPath(Join(p)) == p
    ensures Join(p) == [] || Join(p)[0] == '/'
  {
    if p != [] {
      var name, rest := p[0], Join(p[1..]);
      assert Names(p[1..]) by {
        forall i | 0 <= i < |p[1..]| ensures IsName(p[1..][i]) { assert IsName(p[i + 1]); }
      }
      SplitJoin(p[1..]);
      NameLengthOf(name, rest);
      assert Join(p)[1..] == name + rest;
      assert (name + rest)[..|name|] == name && (name + rest)[|name|..] == rest;
      assert (name + rest)[0] == name[0] && IsName(name);
      assert p == [name] + p[1..];
    }
  }

  lemma SplitName(name: string)
    requires IsName(name)
    ensures SplitPath(name) == [name]
  {
    NameLengthOf(name, []);
    assert name + [] == name && name[0] in name;
    assert name[..|name|] == name && name[|name|..] == [];
  }

  // Every text is a list of names with slashes around them.

  function Slashes(n: nat): (s: string)
    ensures |s| == n && forall i :: 0 <= i < n ==> s[i] == '/'
  {
    seq(n, _ => '/')
  }

  /** The names with so many slashes before each and after the last. */
  function Spread(p: Path, gaps: seq<nat>): string
    requires |gaps| == |p| + 1
  {
    if p == [] then Slashes(gaps[0]) else Slashes(gaps[0]) + (p[0] + Spread(p[1..], gaps[1..]))
  }

  /** Between two names there is a slash. */
  predicate Apart(p: Path, gaps: seq<nat>) {
    |gaps| == |p| + 1 && forall i :: 0 < i < |p| ==> gaps[i] > 0
  }

  lemma {:induction false} SkipSlashes(n: nat, s: string)
    ensures SplitPath(Slashes(n) + s) == SplitPath(s)
  {
    if n == 0 {
      assert Slashes(0) + s == s;
    } else {
      SkipSlashes(n - 1, s);
      assert (Slashes(n) + s)[1..] == Slashes(n - 1) + s;
    }
  }

  lemma SplitOne(name: string, rest: string)
    requires IsName(name) && (rest == [] || rest[0] == '/')
    ensures SplitPath(name + rest) == [name] + SplitPath(rest)
  {
    NameLengthOf(name, rest);
    assert (name + rest)[0] == name[0] && name[0] in name;
    assert (name + rest)[..|name|] == name && (name + rest)[|name|..] == rest;
  }

  /** The split finds the names, whatever slashes are around them. */
  lemma {:induction false} SplitSpread(p: Path, gaps: seq<nat>)
    requires Names(p) && Apart(p, gaps)
    ensures SplitPath(Spread(p, gaps)) == p
    decreases |p|
  {
    if p == [] {
      SkipSlashes(gaps[0], []);
      assert Slashes(gaps[0]) + [] == Slashes(gaps[0]);
    } else {
      var rest := Spread(p[1..], gaps[1..]);
      assert Names(p[1..]) && Apart(p[1..], gaps[1..]) by {
        forall i | 0 <= i < |p[1..]| ensures IsName(p[1..][i]) { assert IsName(p[i + 1]); }
        forall i | 0 < i < |p[1..]| ensures gaps[1..][i] > 0 { assert gaps[i + 1] > 0; }
      }
      SplitSpread(p[1..], gaps[1..]);
      SkipSlashes(gaps[0], p[0] + rest);
      SplitOne(p[0], rest);
      assert p == [p[0]] + p[1..];
    }
  }

  /** And every text is of this form, so the split is told for each. */
  lemma {:induction false} EverySpread(s: string) returns (gaps: seq<nat>)
    ensures Apart(SplitPath(s), gaps) && s == Spread(SplitPath(s), gaps)
    ensures s != [] && s[0] != '/' ==> gaps[0] == 0
    decreases |s|
  {
    if s == [] {
      gaps := [0];
    } else if s[0] == '/' {
      var more := EverySpread(s[1..]);
      gaps := [more[0] + 1] + more[1..];
      var p := SplitPath(s);
      assert gaps[1..] == more[1..];
      assert Slashes(gaps[0]) == ['/'] + Slashes(more[0]);
      assert s == ['/'] + s[1..];
    } else {
      var n := NameLength(s);
      var more := EverySpread(s[n..]);
      gaps := [0] + more;
      var p := SplitPath(s);
      assert p[1..] == SplitPath(s[n..]) && gaps[1..] == more;
      assert s == Slashes(0) + (s[..n] + s[n..]);
      if |p| > 1 { FirstGap(s[n..], more); }
      forall i | 0 < i < |p| ensures gaps[i] > 0 {
        assert gaps[i] == more[i - 1];
      }
    }
  }

  /** A text with a name in it that begins with a slash has slashes before it. */
  lemma FirstGap(s: string, gaps: seq<nat>)
    requires s != [] ==> s[0] == '/'
    requires Apart(SplitPath(s), gaps) && s == Spread(SplitPath(s), gaps) && SplitPath(s) != []
    ensures gaps[0] > 0
  {
    var p := SplitPath(s);
    assert IsName(p[0]) && p[0][0] in p[0];
    assert |s| > gaps[0] && s[gaps[0]] == p[0][0];
  }
}
