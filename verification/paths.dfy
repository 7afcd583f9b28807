/** File-name handling of Python's `os.path` on Windows (`ntpath`) and of `pathlib`, as the scripts use it.
    Both `\` and `/` separate components; drive prefixes such as `C:` are treated as ordinary characters. */
module Paths {
  import opened Text

  predicate IsSep(c: char) {
    c == '\\' || c == '/'
  }

  /** No character of `s` is a separator. */
  predicate NoSep(s: string) {
    forall i :: 0 <= i < |s| ==> !IsSep(s[i])
  }

  /** No character of `s` is a dot. */
  predicate NoDot(s: string) {
    forall i :: 0 <= i < |s| ==> s[i] != '.'
  }

  /** `max(p.rfind('\\'), p.rfind('/'))`: the index of the last separator, or -1. */
  function LastSep(p: string): (r: int)
    ensures -1 <= r < |p|
    ensures r >= 0 ==> IsSep(p[r])
    ensures forall j :: r < j < |p| ==> !IsSep(p[j])
  {
    var back := RFindChar(p, '\\');
    var slash := RFindChar(p, '/');
    if back >= slash then back else slash
  }

  /** The index of the last dot, `p.rfind('.')`. */
  function LastDot(p: string): (r: int)
    ensures -1 <= r < |p|
    ensures r >= 0 ==> p[r] == '.'
    ensures forall j :: r < j < |p| ==> p[j] != '.'
  {
    RFindChar(p, '.')
  }

  /** `os.path.basename`: the text after the last separator. */
  function Basename(p: string): (r: string)
    ensures NoSep(r)
    ensures |r| <= |p| && r == p[|p| - |r|..]
    ensures |r| == |p| || IsSep(p[|p| - |r| - 1])
  {
    p[LastSep(p) + 1..]
  }

  /** `s.rstrip('\\/')`. */
  function RStripSeps(s: string): (r: string)
    ensures |r| <= |s| && r == s[..|r|]
    ensures r == [] || !IsSep(r[|r| - 1])
    ensures forall i :: |r| <= i < |s| ==> IsSep(s[i])
  {
    if |s| > 0 && IsSep(s[|s| - 1]) then RStripSeps(s[..|s| - 1]) else s
  }

  /** `os.path.dirname`: the text up to the last separator, without trailing separators
      unless it consists of separators only. */
  function Dirname(p: string): (r: string)
    ensures |r| <= LastSep(p) + 1 && r == p[..|r|]
    ensures forall i :: |r| <= i <= LastSep(p) ==> IsSep(p[i])
    ensures r == [] <==> LastSep(p) < 0
    ensures (r != [] && !IsSep(r[|r| - 1])) || (r == p[..LastSep(p) + 1] && forall i :: 0 <= i < |r| ==> IsSep(r[i]))
  {
    var head := p[..LastSep(p) + 1];
    var stripped := RStripSeps(head);
    if stripped == [] then head else stripped
  }

  /** `os.path.join(a, b)`: a rooted `b` replaces `a`; otherwise one separator is put between them. */
  function Join(a: string, b: string): (r: string)
    ensures |b| > 0 && IsSep(b[0]) ==> r == b
    ensures !(|b| > 0 && IsSep(b[0])) ==> r == a + b || r == a + "\\" + b
    ensures !(|b| > 0 && IsSep(b[0])) ==> (r == a + b <==> a == [] || IsSep(a[|a| - 1]))
  {
    if |b| > 0 && IsSep(b[0]) then b
    else if a == [] then b
    else if IsSep(a[|a| - 1]) then a + b
    else a + "\\" + b
  }

  /** `os.path.splitext`: the extension starts at the last dot of the last component, provided
      some character other than a dot comes before that dot in the component; otherwise it is empty. */
  function SplitExt(p: string): (r: (string, string))
    ensures r.0 + r.1 == p
    ensures r.1 == [] || (r.1[0] == '.' && NoDot(r.1[1..]) && NoSep(r.1))
    ensures r.1 != [] ==> exists k :: LastSep(p) < k < |r.0| && p[k] != '.'
    ensures LastDot(p) > LastSep(p) && (exists k :: LastSep(p) < k < LastDot(p) && p[k] != '.') ==>
              r.1 == p[LastDot(p)..]
  {
    var sepIndex := LastSep(p);
    var dotIndex := LastDot(p);
    if dotIndex > sepIndex && exists k :: sepIndex + 1 <= k < dotIndex && p[k] != '.' then
      (p[..dotIndex], p[dotIndex..])
    else
      (p, [])
  }

  /** `pathlib.Path(p).name`: the last component, ignoring trailing separators. */
  function PathName(p: string): (r: string)
    ensures NoSep(r)
    ensures var q := RStripSeps(p);
            |r| <= |q| && r == q[|q| - |r|..] && (|r| == |q| || IsSep(q[|q| - |r| - 1]))
  {
    Basename(RStripSeps(p))
  }

  /** A name without its last suffix, where a suffix needs a dot that is neither the first nor the
      last character of the name: either the text before such a dot with no dot after it, or the
      whole name when there is no such dot. */
  function NameStem(name: string): (r: string)
    ensures || (0 < |r| < |name| - 1 && r == name[..|r|] && name[|r|] == '.' && NoDot(name[|r| + 1..]))
            || (r == name && !exists i :: 0 < i < |name| - 1 && name[i] == '.' && NoDot(name[i + 1..]))
  {
    var i := LastDot(name);
    if 0 < i < |name| - 1 then name[..i]
    else
      assert !exists k :: 0 < k < |name| - 1 && name[k] == '.' && NoDot(name[k + 1..]) by {
        forall k | 0 < k < |name| - 1 && name[k] == '.'
          ensures !NoDot(name[k + 1..])
        {
          assert i != k;
          assert name[k + 1..][i - k - 1] == '.';
        }
      }
      name
  }

  /** `pathlib.Path(p).stem`: the stem of the last component. */
  function PathStem(p: string): (r: string)
    ensures NoSep(r)
    ensures var name := PathName(p);
      || (0 < |r| < |name| - 1 && r == name[..|r|] && name[|r|] == '.' && NoDot(name[|r| + 1..]))
      || (r == name && !exists i :: 0 < i < |name| - 1 && name[i] == '.' && NoDot(name[i + 1..]))
  {
    var name := PathName(p);
    var r := NameStem(name);
    assert NoSep(r) by {
      forall i | 0 <= i < |r|
        ensures !IsSep(r[i])
      {
        assert r[i] == name[i];
      }
    }
    r
  }

  /** Appending separator-free text keeps the last separator where it was. */
  lemma LastSepAppend(a: string, b: string)
    requires NoSep(b)
    ensures LastSep(a + b) == LastSep(a)
  {
    var r := LastSep(a + b);
    var k := LastSep(a);
    assert forall j :: 0 <= j < |b| ==> (a + b)[|a| + j] == b[j];
    assert forall j :: 0 <= j < |a| ==> (a + b)[j] == a[j];
  }

  /** Appending dot-free text after a dot keeps the last dot at that dot. */
  lemma LastDotAfter(a: string, t: string)
    requires NoDot(t)
    ensures LastDot(a + "." + t) == |a|
  {
    var s := a + "." + t;
    var r := LastDot(s);
    assert s[|a|] == '.';
    assert forall j :: |a| < j < |s| ==> s[j] == t[j - |a| - 1];
  }

  /** Concatenating separator-free texts gives separator-free text. */
  lemma NoSepConcat(x: string, y: string)
    requires NoSep(x) && NoSep(y)
    ensures NoSep(x + y)
  {
    assert forall i :: 0 <= i < |x + y| ==> (x + y)[i] == if i < |x| then x[i] else y[i - |x|];
  }

  /** `splitext` of `a + b + "." + t`, when `b` and `t` hold no dots or separators and `b` is not
      empty, splits off exactly `"." + t`. */
  lemma SplitExtSuffix(a: string, b: string, t: string)
    requires |b| > 0 && NoDot(b) && NoSep(b)
    requires NoDot(t) && NoSep(t)
    ensures SplitExt(a + b + "." + t) == (a + b, "." + t)
  {
    var p := a + b + "." + t;
    var tail := b + "." + t;
    assert p == a + tail;
    NoSepConcat(b, ".");
    NoSepConcat(b + ".", t);
    LastSepAppend(a, tail);
    LastDotAfter(a + b, t);
    var k := |a| + |b| - 1;
    assert p[k] == b[|b| - 1];
    assert LastSep(p) < |a| <= k < LastDot(p);
    assert p[..|a + b|] == a + b;
    assert p[|a + b|..] == "." + t;
  }

  /** Appending separator-free text to a path appends it to the base name. */
  lemma BasenameAppend(a: string, b: string)
    requires NoSep(b)
    ensures Basename(a + b) == Basename(a) + b
  {
    LastSepAppend(a, b);
    assert (a + b)[LastSep(a) + 1..] == a[LastSep(a) + 1..] + b;
  }

  /** The `pathlib` name of a path ending in separator-free text that does not end the path with
      a separator is its base name. */
  lemma PathNameAppend(a: string, tail: string)
    requires |tail| > 0 && NoSep(tail)
    ensures PathName(a + tail) == Basename(a) + tail
  {
    var p := a + tail;
    assert RStripSeps(p) == p by {
      assert p[|p| - 1] == tail[|tail| - 1];
    }
    BasenameAppend(a, tail);
  }

  /** The `pathlib` name of `a + b + "." + t`, when `b` and `t` hold no separators and `t` is not
      empty, is the base name of `a` followed by `b + "." + t`. */
  lemma PathNameSuffix(a: string, b: string, t: string)
    requires NoSep(b) && |t| > 0 && NoSep(t)
    ensures PathName(a + b + "." + t) == Basename(a) + b + "." + t
  {
    var tail := b + "." + t;
    assert a + b + "." + t == a + tail;
    NoSepConcat(b, ".");
    NoSepConcat(b + ".", t);
    PathNameAppend(a, tail);
    assert Basename(a) + tail == Basename(a) + b + "." + t;
  }

  /** `pathlib`'s stem of `a + b + "." + t` drops `"." + t`, when `b` and `t` are non-empty and hold
      no dots or separators. */
  lemma PathStemSuffix(a: string, b: string, t: string)
    requires |b| > 0 && NoDot(b) && NoSep(b)
    requires |t| > 0 && NoDot(t) && NoSep(t)
    ensures PathStem(a + b + "." + t) == Basename(a) + b
  {
    var stem := Basename(a) + b;
    PathNameSuffix(a, b, t);
    NameStemSuffix(stem, t);
  }

  /** The stem of `stem + "." + t` is `stem`, when both are non-empty and `t` holds no dot. */
  lemma NameStemSuffix(stem: string, t: string)
    requires |stem| > 0 && |t| > 0 && NoDot(t)
    ensures NameStem(stem + "." + t) == stem
  {
    LastDotAfter(stem, t);
    assert (stem + "." + t)[..|stem|] == stem;
  }

  /** Joining a directory without a trailing separator to a plain file name, and taking the
      directory and base name back, recovers both parts. */
  lemma JoinSplit(dir: string, name: string)
    requires |dir| > 0 && !IsSep(dir[|dir| - 1])
    requires |name| > 0 && NoSep(name)
    ensures Dirname(Join(dir, name)) == dir
    ensures Basename(Join(dir, name)) == name
  {
    var p := Join(dir, name);
    assert p == (dir + "\\") + name;
    LastSepAppend(dir + "\\", name);
    assert LastSep(dir + "\\") == |dir|;
    assert p[..|dir| + 1] == dir + "\\";
    assert RStripSeps(dir + "\\") == RStripSeps(dir);
    assert RStripSeps(dir) == dir;
  }

  /** Joining a directory as `dirname` returns it (empty, ending in a non-separator, or made of
      separators only) to a non-empty separator-free name, and taking the directory and base name
      back, recovers both parts. */
  lemma DirnameJoin(dir: string, name: string)
    requires (dir != [] && !IsSep(dir[|dir| - 1])) || forall i :: 0 <= i < |dir| ==> IsSep(dir[i])
    requires |name| > 0 && NoSep(name)
    ensures Dirname(Join(dir, name)) == dir
    ensures Basename(Join(dir, name)) == name
  {
    if dir != [] && !IsSep(dir[|dir| - 1]) {
      JoinSplit(dir, name);
    } else {
      var p := Join(dir, name);
      assert p == dir + name;
      LastSepAppend(dir, name);
      assert p[..LastSep(p) + 1] == dir;
      assert p[LastSep(p) + 1..] == name;
    }
  }

  /** A separator-free name joined to the directory of any path lands in that directory. */
  lemma DirnameJoinName(p: string, stem: string, tail: string)
    requires NoSep(stem) && |tail| > 0 && NoSep(tail)
    ensures Dirname(Join(Dirname(p), stem + tail)) == Dirname(p)
    ensures Basename(Join(Dirname(p), stem + tail)) == stem + tail
  {
    NoSepConcat(stem, tail);
    DirnameJoin(Dirname(p), stem + tail);
  }

  /** Joining a folder to a separator-free name puts the join prefix before it, and the name is the
      base name of the result. */
  lemma JoinName(folder: string, stem: string, tail: string)
    requires NoSep(stem) && |tail| > 0 && NoSep(tail)
    ensures Join(folder, stem + tail) == JoinPrefix(folder) + (stem + tail)
    ensures Basename(Join(folder, stem + tail)) == stem + tail
  {
    JoinStem(folder, stem, tail);
    BasenameAppend(JoinPrefix(folder) + stem, tail);
    assert (JoinPrefix(folder) + stem) + tail == JoinPrefix(folder) + (stem + tail);
  }

  /** What `os.path.join(a, b)` puts before a relative `b`: nothing, `a`, or `a` and a separator. */
  function JoinPrefix(a: string): (r: string)
    ensures r == [] || IsSep(r[|r| - 1])
  {
    if a == [] then [] else if IsSep(a[|a| - 1]) then a else a + "\\"
  }

  /** Joining a name that does not start with a separator appends it to the join prefix. */
  lemma JoinRelative(a: string, b: string)
    requires |b| > 0 && !IsSep(b[0])
    ensures Join(a, b) == JoinPrefix(a) + b
  {
    if a == [] {
    } else if IsSep(a[|a| - 1]) {
    } else {
      assert Join(a, b) == a + "\\" + b;
    }
  }

  /** A path that is empty or ends with a separator has an empty base name. */
  lemma BasenameOfDirectory(p: string)
    requires p == [] || IsSep(p[|p| - 1])
    ensures Basename(p) == []
  {
  }

  /** The part of a path before its extension holds no separator when the path holds none. */
  lemma SplitExtNoSep(p: string)
    requires NoSep(p)
    ensures NoSep(SplitExt(p).0)
  {
    var root := SplitExt(p).0;
    assert forall i :: 0 <= i < |root| ==> root[i] == p[i];
  }

  /** Joining a separator-free stem followed by text that does not start with a separator puts
      the stem, as the base name, right after the join prefix. */
  lemma JoinStem(folder: string, stem: string, tail: string)
    requires NoSep(stem)
    requires |tail| > 0 && !IsSep(tail[0])
    ensures Join(folder, stem + tail) == (JoinPrefix(folder) + stem) + tail
    ensures Basename(JoinPrefix(folder) + stem) == stem
  {
    var name := stem + tail;
    if |stem| > 0 {
      assert name[0] == stem[0];
    } else {
      assert name[0] == tail[0];
    }
    JoinRelative(folder, name);
    BasenameOfDirectory(JoinPrefix(folder));
    BasenameAppend(JoinPrefix(folder), stem);
  }

  /** Regroups `a + (b + "." + t)` as `a + b + "." + t`; it only splits a literal name suffix into
      the parts the other lemmas expect, for the prover. */
  lemma SuffixConcat(a: string, tail: string, b: string, t: string, ext: string)
    requires ext == "." + t && tail == b + ext
    ensures a + tail == a + b + "." + t
  {
  }

  /** A name made of a separator-free stem, a dot-free suffix `b` and an extension `ext` (a dot and
      `t`), joined to any folder, keeps that extension. */
  lemma JoinedExt(folder: string, stem: string, tail: string, b: string, t: string, ext: string)
    requires NoSep(stem)
    requires |b| > 0 && NoDot(b) && NoSep(b)
    requires NoDot(t) && NoSep(t)
    requires ext == "." + t && tail == b + ext
    ensures SplitExt(Join(folder, stem + tail)).1 == ext
  {
    var a := JoinPrefix(folder) + stem;
    JoinStem(folder, stem, tail);
    SuffixConcat(a, tail, b, t, ext);
    SplitExtSuffix(a, b, t);
  }

  /** Such a name has the stem followed by the suffix as its `pathlib` stem. */
  lemma JoinedStem(folder: string, stem: string, tail: string, b: string, t: string, ext: string)
    requires NoSep(stem)
    requires |b| > 0 && NoDot(b) && NoSep(b)
    requires |t| > 0 && NoDot(t) && NoSep(t)
    requires ext == "." + t && tail == b + ext
    ensures PathStem(Join(folder, stem + tail)) == stem + b
  {
    var a := JoinPrefix(folder) + stem;
    JoinStem(folder, stem, tail);
    SuffixConcat(a, tail, b, t, ext);
    PathStemSuffix(a, b, t);
  }
}
