/** Go's path/filepath.Join and Clean on a system whose separator is '/'.

    Clean is stated on the path's elements (the pieces between slashes):
    empty elements and "." vanish, ".." removes the element before it when
    there is one that is not itself "..", is dropped at the root of an
    absolute path and is kept at the head of a relative one. Go's Clean
    computes the same result in one pass over the bytes. */
module FilePath {

  /** The pieces of p between slashes; "" yields [""], "/a" yields ["", "a"]. */
  function Split(p: string): (es: seq<string>)
    ensures |es| > 0
  {
    if p == [] then [""]
    else
      var rest := Split(p[1..]);
      if p[0] == '/' then [""] + rest else [[p[0]] + rest[0]] + rest[1..]
  }

  /** strings.Join(es, "/"). */
  function JoinSlash(es: seq<string>): string {
    if es == [] then ""
    else if |es| == 1 then es[0]
    else es[0] + "/" + JoinSlash(es[1..])
  }

  /** One element's effect on the elements kept so far. */
  function Step(rooted: bool, kept: seq<string>, e: string): seq<string> {
    if e == "" || e == "." then kept
    else if e == ".." then
      if |kept| > 0 && kept[|kept| - 1] != ".." then kept[..|kept| - 1]
      else if rooted then kept
      else kept + [".."]
    else kept + [e]
  }

  function Resolve(rooted: bool, kept: seq<string>, es: seq<string>): seq<string>
    decreases |es|
  {
    if es == [] then kept else Resolve(rooted, Step(rooted, kept, es[0]), es[1..])
  }

  /** filepath.Clean: the shortest path naming the same file by lexical
      processing alone; "" cleans to ".". */
  function Clean(p: string): string {
    if p == [] then "."
    else
      var rooted := p[0] == '/';
      Render(rooted, Resolve(rooted, [], Split(p)))
  }

  /** The path text of the kept elements: "/" in front of an absolute
      path, "." for a relative path with nothing kept. */
  function Render(rooted: bool, kept: seq<string>): string {
    var body := JoinSlash(kept);
    if rooted then "/" + body
    else if body == [] then "."
    else body
  }

  /** filepath.Join: the elements from the first non-empty one on, joined
      by '/' and cleaned; "" when every element is empty. */
  function Join(elems: seq<string>): string {
    if elems == [] then ""
    else if elems[0] == "" then Join(elems[1..])
    else Clean(JoinSlash(elems))
  }

  // ---------------------------------------------------------------------
  // Lemmas

  /** Splitting at a slash splits the element list. */
  lemma {:induction false} SplitAppend(a: string, b: string)
    ensures Split(a + "/" + b) == Split(a) + Split(b)
  {
    if a == [] {
      assert a + "/" + b == "/" + b;
    } else {
      assert (a + "/" + b)[1..] == a[1..] + "/" + b;
      SplitAppend(a[1..], b);
    }
  }

  /** A name without slashes is one element. */
  lemma {:induction false} SplitName(n: string)
    requires '/' !in n
    ensures Split(n) == [n]
  {
    if n != [] {
      SplitName(n[1..]);
      assert [n[0]] + n[1..] == n;
    }
  }

  lemma {:induction false} ResolveAppend(rooted: bool, kept: seq<string>, xs: seq<string>, ys: seq<string>)
    decreases |xs|
    ensures Resolve(rooted, kept, xs + ys) == Resolve(rooted, Resolve(rooted, kept, xs), ys)
  {
    if xs == [] {
      assert xs + ys == ys;
    } else {
      assert (xs + ys)[1..] == xs[1..] + ys;
      ResolveAppend(rooted, Step(rooted, kept, xs[0]), xs[1..], ys);
    }
  }

  /** An ordinary name (not empty, ".", ".." and without slashes) is
      simply kept. */
  predicate IsName(e: string) {
    e != "" && e != "." && e != ".." && '/' !in e
  }

  lemma {:induction false} ResolveNames(rooted: bool, kept: seq<string>, names: seq<string>)
    requires forall i :: 0 <= i < |names| ==> IsName(names[i])
    decreases |names|
    ensures Resolve(rooted, kept, names) == kept + names
  {
    if names != [] {
      ResolveNames(rooted, kept + [names[0]], names[1..]);
      assert kept + [names[0]] + names[1..] == kept + names;
    }
  }

  lemma {:induction false} JoinSlashAppend(xs: seq<string>, ys: seq<string>)
    requires xs != [] && ys != []
    ensures JoinSlash(xs + ys) == JoinSlash(xs) + "/" + JoinSlash(ys)
  {
    if |xs| == 1 {
      assert (xs + ys)[1..] == ys;
    } else {
      assert (xs + ys)[1..] == xs[1..] + ys;
      JoinSlashAppend(xs[1..], ys);
    }
  }

  /** Joining a non-empty directory with names: the names go under the
      cleaned directory, with no "." in front and no doubled slash after "/". */
  lemma JoinUnder(dir: string, names: seq<string>)
    requires dir != "" && names != []
    requires forall i :: 0 <= i < |names| ==> IsName(names[i])
    ensures Join([dir] + names) == Under(Clean(dir), JoinSlash(names))
  {
    var tail := JoinSlash(names);
    JoinSlashAppend([dir], names);
    assert ([dir] + names)[0] == dir;
    assert Join([dir] + names) == Clean(dir + "/" + tail);
    CleanUnder(dir, names);
  }

  lemma CleanUnder(dir: string, names: seq<string>)
    requires dir != "" && names != []
    requires forall i :: 0 <= i < |names| ==> IsName(names[i])
    ensures Clean(dir + "/" + JoinSlash(names)) == Under(Clean(dir), JoinSlash(names))
  {
    var rooted := dir[0] == '/';
    var p := dir + "/" + JoinSlash(names);
    assert p[0] == dir[0];
    ResolveUnder(rooted, dir, names);
    SplitNoSlash(dir);
    ResolveTidy(rooted, [], Split(dir));
    RenderUnder(rooted, Resolve(rooted, [], Split(dir)), names);
  }

  lemma ResolveUnder(rooted: bool, dir: string, names: seq<string>)
    requires names != []
    requires forall i :: 0 <= i < |names| ==> IsName(names[i])
    ensures Resolve(rooted, [], Split(dir + "/" + JoinSlash(names))) == Resolve(rooted, [], Split(dir)) + names
  {
    SplitAppend(dir, JoinSlash(names));
    SplitNames(names);
    ResolveAppend(rooted, [], Split(dir), names);
    ResolveNames(rooted, Resolve(rooted, [], Split(dir)), names);
  }

  lemma RenderUnder(rooted: bool, kept: seq<string>, names: seq<string>)
    requires Tidy(kept) && names != []
    requires forall i :: 0 <= i < |names| ==> IsName(names[i])
    ensures Render(rooted, kept + names) == Under(Render(rooted, kept), JoinSlash(names))
  {
    var t := JoinSlash(names);
    assert t != "" by {
      NamesTidy(names);
      JoinSlashTidy(names);
    }
    if kept == [] {
      assert kept + names == names;
      RenderUnderNothing(rooted, names);
    } else {
      var j := JoinSlash(kept);
      assert JoinSlash(kept + names) == j + "/" + t by {
        JoinSlashAppend(kept, names);
      }
      assert j != "" && j != "." && j[0] != '/' by {
        JoinSlashTidy(kept);
      }
      assert Render(rooted, kept) == if rooted then "/" + j else j;
      RenderUnderKept(rooted, j, t);
    }
  }

  lemma RenderUnderNothing(rooted: bool, names: seq<string>)
    requires JoinSlash(names) != ""
    ensures Render(rooted, names) == Under(Render(rooted, []), JoinSlash(names))
  {
    assert Render(rooted, []) == if rooted then "/" else ".";
  }

  lemma RenderUnderKept(rooted: bool, j: string, t: string)
    requires j != "" && j != "." && j[0] != '/'
    ensures (if rooted then "/" + (j + "/" + t) else j + "/" + t)
         == Under(if rooted then "/" + j else j, t)
  {
    if rooted {
      assert ("/" + j)[1..] == j;
      assert "/" + (j + "/" + t) == ("/" + j) + "/" + t;
    }
  }

  /** Kept elements are never empty, never "." and hold no slash. */
  predicate Tidy(es: seq<string>) {
    forall i :: 0 <= i < |es| ==> es[i] != "" && es[i] != "." && '/' !in es[i]
  }

  lemma {:induction false} SplitNoSlash(p: string)
    ensures forall i :: 0 <= i < |Split(p)| ==> '/' !in Split(p)[i]
  {
    if p != [] {
      SplitNoSlash(p[1..]);
    }
  }

  lemma NamesTidy(names: seq<string>)
    requires forall i :: 0 <= i < |names| ==> IsName(names[i])
    ensures Tidy(names)
  {
  }

  lemma {:induction false} ResolveTidy(rooted: bool, kept: seq<string>, es: seq<string>)
    requires Tidy(kept)
    requires forall i :: 0 <= i < |es| ==> '/' !in es[i]
    decreases |es|
    ensures Tidy(Resolve(rooted, kept, es))
  {
    if es != [] {
      ResolveTidy(rooted, Step(rooted, kept, es[0]), es[1..]);
    }
  }

  /** Tidy elements join to a relative path that is neither "" nor ".". */
  lemma JoinSlashTidy(es: seq<string>)
    requires es != [] && Tidy(es)
    ensures JoinSlash(es) != "" && JoinSlash(es) != "." && JoinSlash(es)[0] != '/'
  {
    if |es| > 1 {
      var j := JoinSlash(es);
      assert j == es[0] + "/" + JoinSlash(es[1..]);
      assert |j| >= 2 && j[0] == es[0][0];
    }
  }

  /** The elements of names joined by '/' split back into names. */
  lemma {:induction false} SplitNames(names: seq<string>)
    requires names != []
    requires forall i :: 0 <= i < |names| ==> IsName(names[i])
    ensures Split(JoinSlash(names)) == names
  {
    SplitName(names[0]);
    if |names| > 1 {
      SplitNames(names[1..]);
      SplitAppend(names[0], JoinSlash(names[1..]));
      assert [names[0]] + names[1..] == names;
    }
  }

  /** An absolute path made of ordinary names is already clean, and a
      trailing slash after it is dropped. */
  lemma CleanAbsolute(names: seq<string>)
    requires names != []
    requires forall i :: 0 <= i < |names| ==> IsName(names[i])
    ensures Clean("/" + JoinSlash(names)) == "/" + JoinSlash(names)
    ensures Clean("/" + JoinSlash(names) + "/") == "/" + JoinSlash(names)
  {
    var p := "/" + JoinSlash(names);
    var es := SplitAbsolute(names);
    ResolveNames(true, [], names);
    assert es[0] == "" && es[1..] == names;
    assert Resolve(true, [], es) == names;
    assert Clean(p) == Render(true, names);
    var q := p + "/";
    SplitAppend(p, "");
    assert p + "/" + "" == q;
    ResolveAppend(true, [], es, [""]);
    assert Resolve(true, [], Split(q)) == names;
    assert q[0] == '/';
  }

  lemma SplitAbsolute(names: seq<string>) returns (es: seq<string>)
    requires names != []
    requires forall i :: 0 <= i < |names| ==> IsName(names[i])
    ensures es == Split("/" + JoinSlash(names)) == [""] + names
  {
    SplitNames(names);
    SplitAppend("", JoinSlash(names));
    assert "" + "/" + JoinSlash(names) == "/" + JoinSlash(names);
    es := [""] + names;
  }

  /** A tail placed under an absolute directory of ordinary names, with or
      without a trailing slash, follows the directory after one slash. */
  lemma UnderCleanAbsolute(dir: string, names: seq<string>, trailingSlash: bool, tail: string)
    requires names != []
    requires forall i :: 0 <= i < |names| ==> IsName(names[i])
    requires dir == "/" + JoinSlash(names) + (if trailingSlash then "/" else "")
    ensures Under(Clean(dir), tail) == "/" + JoinSlash(names) + "/" + tail
  {
    var p := "/" + JoinSlash(names);
    CleanAbsoluteDir(dir, names, trailingSlash);
    NamesTidy(names);
    JoinSlashTidy(names);
    assert p[1..] == JoinSlash(names);
  }

  lemma CleanAbsoluteDir(dir: string, names: seq<string>, trailingSlash: bool)
    requires names != []
    requires forall i :: 0 <= i < |names| ==> IsName(names[i])
    requires dir == "/" + JoinSlash(names) + (if trailingSlash then "/" else "")
    ensures Clean(dir) == "/" + JoinSlash(names)
  {
    var p := "/" + JoinSlash(names);
    CleanAbsolute(names);
    if trailingSlash {
      assert dir == p + "/";
    } else {
      assert dir == p + "";
      assert dir == p;
    }
  }

  /** Where a relative path tail lands under a cleaned directory. */
  function Under(cleanDir: string, tail: string): string {
    if cleanDir == "." then tail
    else if cleanDir == "/" then "/" + tail
    else cleanDir + "/" + tail
  }
}
