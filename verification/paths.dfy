/** Models of Go's slash-separated path helpers (`path.Clean`, `path.Dir`,
    `path.Base`) and of `filepath.Ext` on a Unix host. They are standard
    library code, not repository code; they are written out here, following
    the library's documented rules, so that the directory index and the
    handler can be stated over them. */
module Paths {
  import opened Strs

  predicate NoSlash(s: string)
  {
    forall i :: 0 <= i < |s| ==> s[i] != '/'
  }

  /** Splits `p` at every slash; `cur` is the element read so far. */
  function SplitElements(p: string, cur: string): (r: seq<string>)
    requires NoSlash(cur)
    ensures |r| >= 1
    ensures forall k :: 0 <= k < |r| ==> NoSlash(r[k])
    decreases |p|
  {
    if p == [] then [cur]
    else if p[0] == '/' then [cur] + SplitElements(p[1..], [])
    else SplitElements(p[1..], cur + [p[0]])
  }

  predicate Proper(elems: seq<string>)
  {
    forall k :: 0 <= k < |elems| ==> elems[k] != [] && NoSlash(elems[k])
  }

  /** Processes the elements of a path left to right: drops empty and "."
      elements, lets ".." remove the element before it, and keeps a leading
      ".." only in a relative path. */
  function Resolve(elems: seq<string>, rooted: bool, stack: seq<string>): (r: seq<string>)
    requires Proper(stack)
    requires forall k :: 0 <= k < |elems| ==> NoSlash(elems[k])
    ensures Proper(r)
    decreases |elems|
  {
    if elems == [] then stack
    else
      var e := elems[0];
      if e == "" || e == "." then Resolve(elems[1..], rooted, stack)
      else if e == ".." then
        if |stack| > 0 && stack[|stack| - 1] != ".." then Resolve(elems[1..], rooted, stack[..|stack| - 1])
        else if rooted then Resolve(elems[1..], rooted, stack)
        else Resolve(elems[1..], rooted, stack + [".."])
      else Resolve(elems[1..], rooted, stack + [e])
  }

  /** `strings.Join(elems, "/")`. */
  function Join(elems: seq<string>): (r: string)
    requires Proper(elems)
    ensures elems == [] <==> r == []
    ensures r != [] ==> r[0] != '/' && r[|r| - 1] != '/'
  {
    if elems == [] then []
    else if |elems| == 1 then elems[0]
    else elems[0] + "/" + Join(elems[1..])
  }

  /** `path.Clean`: the shortest equivalent path. "." for an empty result of
      a relative path, "/" for that of a rooted one, never a trailing slash
      otherwise. */
  function Clean(p: string): (r: string)
    ensures r != []
    ensures r == "/" || r[|r| - 1] != '/'
    ensures (p != [] && p[0] == '/') <==> r[0] == '/'
  {
    if p == [] then "."
    else
      var rooted := p[0] == '/';
      var joined := Join(Resolve(SplitElements(p, []), rooted, []));
      if rooted then "/" + joined
      else if joined == [] then "."
      else joined
  }

  /** Index of the last slash in `p`, or -1. */
  function LastSlash(p: string): (i: int)
    ensures -1 <= i < |p|
    ensures i >= 0 ==> p[i] == '/'
    ensures forall k :: i < k < |p| ==> p[k] != '/'
  {
    if p == [] then -1
    else if p[|p| - 1] == '/' then |p| - 1
    else LastSlash(p[..|p| - 1])
  }

  /** `path.Dir`: everything up to the last slash, cleaned. */
  function Dir(p: string): (r: string)
    ensures r != []
    ensures r == "/" || r[|r| - 1] != '/'
    ensures NoSlash(p) ==> r == "."
  {
    Clean(p[..LastSlash(p) + 1])
  }

  /** The elements of a clean relative path that stays below its start:
      none is empty, "." or "..". */
  predicate Plain(elems: seq<string>)
  {
    Proper(elems) && forall k :: 0 <= k < |elems| ==> elems[k] != "." && elems[k] != ".."
  }

  /** Characters without a slash only extend the element being read. */
  lemma {:induction false} SplitChunk(e: string, rest: string, cur: string)
    requires NoSlash(cur) && NoSlash(e)
    ensures SplitElements(e + rest, cur) == SplitElements(rest, cur + e)
    decreases |e|
  {
    if e == [] {
      assert e + rest == rest && cur + e == cur;
    } else {
      assert (e + rest)[0] == e[0] && (e + rest)[1..] == e[1..] + rest;
      SplitChunk(e[1..], rest, cur + [e[0]]);
      assert cur + [e[0]] + e[1..] == cur + e;
    }
  }

  /** Splitting a joined path followed by `s` gives back all its elements
      but the last, which goes on being read into `s`. */
  lemma {:induction false} SplitJoin(elems: seq<string>, s: string)
    requires elems != [] && Proper(elems)
    ensures SplitElements(Join(elems) + s, []) == elems[..|elems| - 1] + SplitElements(s, elems[|elems| - 1])
    decreases |elems|
  {
    var first := elems[0];
    assert [] + first == first;
    if |elems| == 1 {
      SplitChunk(first, s, []);
      assert elems[..0] == [];
    } else {
      var tail := elems[1..];
      var rest := Join(tail);
      var after := "/" + (rest + s);
      assert Join(elems) + s == first + after;
      SplitChunk(first, after, []);
      assert after[0] == '/' && after[1..] == rest + s;
      assert SplitElements(after, first) == [first] + SplitElements(rest + s, []);
      SplitJoin(tail, s);
      assert tail[|tail| - 1] == elems[|elems| - 1];
      assert [first] + tail[..|tail| - 1] == elems[..|elems| - 1];
    }
  }

  /** Plain elements, possibly followed by one empty element, are pushed as
      they are. */
  lemma {:induction false} ResolvePlain(elems: seq<string>, tail: seq<string>, stack: seq<string>)
    requires Plain(elems) && Proper(stack) && (tail == [] || tail == [[]])
    ensures Resolve(elems + tail, false, stack) == stack + elems
    decreases |elems|
  {
    if elems == [] {
      assert elems + tail == tail;
    } else {
      assert (elems + tail)[0] == elems[0] && (elems + tail)[1..] == elems[1..] + tail;
      ResolvePlain(elems[1..], tail, stack + [elems[0]]);
      assert stack + [elems[0]] + elems[1..] == stack + elems;
    }
  }

  /** A path joined from plain elements is clean, and cleaning it with one
      trailing slash only drops the slash. */
  lemma CleanJoin(elems: seq<string>)
    requires elems != [] && Plain(elems)
    ensures Clean(Join(elems)) == Join(elems)
    ensures Clean(Join(elems) + "/") == Join(elems)
  {
    var p := Join(elems);
    var last := elems[|elems| - 1];
    var init := elems[..|elems| - 1];
    assert init + [last] == elems;
    SplitJoin(elems, []);
    assert p + [] == p;
    assert SplitElements(p, []) == elems;
    ResolvePlain(elems, [], []);
    assert elems + [] == elems && [] + elems == elems;
    assert Resolve(SplitElements(p, []), false, []) == elems;
    SplitJoin(elems, "/");
    assert SplitElements("/", last) == [last] + SplitElements([], []);
    assert SplitElements(p + "/", []) == elems + [[]];
    ResolvePlain(elems, [[]], []);
    assert Resolve(SplitElements(p + "/", []), false, []) == elems;
    assert (p + "/")[0] == p[0];
  }

  /** The directory of a name `b` inside a clean relative directory is that
      directory. */
  lemma DirOfChild(elems: seq<string>, b: string)
    requires elems != [] && Plain(elems) && NoSlash(b)
    ensures Dir(Join(elems) + "/" + b) == Join(elems)
  {
    var d := Join(elems);
    var p := d + "/" + b;
    assert p[|d|] == '/';
    assert forall k :: |d| < k < |p| ==> p[k] == b[k - |d| - 1];
    assert LastSlash(p) == |d|;
    assert p[..|d| + 1] == d + "/";
    CleanJoin(elems);
  }

  /** `path.Base`: the last element, trailing slashes ignored; "/" for a path
      of slashes only, "." for the empty path. */
  function Base(p: string): (r: string)
    ensures r != []
    ensures r == "/" || NoSlash(r)
  {
    if p == [] then "."
    else
      var t := TrimRightSlash(p);
      var last := t[LastSlash(t) + 1..];
      if last == [] then "/" else last
  }

  /** `filepath.Ext`: the suffix from the last dot of the final element, or
      "" when that element has no dot. */
  function Ext(p: string): (r: string)
    ensures |r| <= |p|
    ensures r == [] || (r[0] == '.' && NoSlash(r))
    decreases |p|
  {
    if p == [] || p[|p| - 1] == '/' then []
    else if p[|p| - 1] == '.' then [p[|p| - 1]]
    else
      var e := Ext(p[..|p| - 1]);
      if e == [] then [] else e + [p[|p| - 1]]
  }

  /** The extension is a suffix of the path. */
  lemma {:induction false} ExtIsSuffix(p: string)
    ensures Ext(p) == p[|p| - |Ext(p)|..]
    decreases |p|
  {
    if p != [] && p[|p| - 1] != '/' && p[|p| - 1] != '.' {
      var q := p[..|p| - 1];
      ExtIsSuffix(q);
      if Ext(q) != [] {
        assert p[|p| - |Ext(p)|..] == q[|q| - |Ext(q)|..] + [p[|p| - 1]];
      }
    }
  }
}
