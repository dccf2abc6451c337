/** Path lookup with symbolic links (kernel/src/fs/ext4.rs, `lookup_from`). */
module Ext4Lookup {
  import opened Common

  const ROOT_INO := 2
  const MAX_DEPTH := 8
  const SYMLINK := 7

  datatype Entry = Entry(name: string, ino: nat, ftype: nat)

  /** What can be read of the file system; reading anything else fails. */
  datatype Fs = Fs(dirs: map<nat, seq<Entry>>, links: map<nat, string>)

  datatype Error = TooManySymlinks | NotFound | Unreadable(ino: nat)

  // Paths.

  predicate Absolute(path: string) {
    |path| > 0 && path[0] == '/'
  }

  /** The path without its leading slashes. */
  function Trim(path: string): (r: string)
    ensures !Absolute(r)
  {
    if Absolute(path) then Trim(path[1..]) else path
  }

  /** The pieces between slashes. */
  function Split(path: string): (pieces: seq<string>)
    ensures |pieces| > 0
  {
    if path == "" then [""]
    else if path[0] == '/' then [""] + Split(path[1..])
    else Glue(path[0], Split(path[1..]))
  }

  function Glue(c: char, pieces: seq<string>): seq<string>
    requires |pieces| > 0
  {
    [[c] + pieces[0]] + pieces[1..]
  }

  function Filter(pieces: seq<string>): seq<string> {
    if pieces == [] then []
    else if pieces[0] == "" || pieces[0] == "." then Filter(pieces[1..])
    else [pieces[0]] + Filter(pieces[1..])
  }

  function Components(path: string): seq<string> {
    Filter(Split(path))
  }

  function Join(cs: seq<string>): string {
    if |cs| == 0 then "" else if |cs| == 1 then cs[0] else cs[0] + "/" + Join(cs[1..])
  }

  predicate Proper(c: string) {
    c != "" && c != "." && '/' !in c
  }

  lemma {:induction false} SplitConcat(p: string, q: string)
    ensures Split(p + "/" + q) == Split(p) + Split(q)
  {
    var whole := p + "/" + q;
    if p == "" {
      assert whole[1..] == q;
    } else {
      SplitConcat(p[1..], q);
      assert whole[0] == p[0] && whole[1..] == p[1..] + "/" + q;
      var a, b := Split(p[1..]), Split(q);
      if p[0] == '/' {
        assert [""] + (a + b) == [""] + a + b;
      } else {
        GlueConcat(p[0], a, b);
      }
    }
  }

  lemma GlueConcat(c: char, a: seq<string>, b: seq<string>)
    requires |a| > 0
    ensures Glue(c, a + b) == Glue(c, a) + b
  {
  }

  lemma {:induction false} FilterConcat(a: seq<string>, b: seq<string>)
    ensures Filter(a + b) == Filter(a) + Filter(b)
  {
    if a == [] {
      assert a + b == b;
    } else {
      var all, rest := a + b, a[1..];
      FilterConcat(rest, b);
      assert all[1..] == rest + b && all[0] == a[0];
    }
  }

  lemma ComponentsConcat(p: string, q: string)
    ensures Components(p + "/" + q) == Components(p) + Components(q)
  {
    SplitConcat(p, q);
    FilterConcat(Split(p), Split(q));
  }

  lemma {:induction false} SplitPieces(path: string)
    ensures forall i :: 0 <= i < |Split(path)| ==> '/' !in Split(path)[i]
  {
    if path != "" {
      SplitPieces(path[1..]);
    }
  }

  lemma {:induction false} FilterPieces(pieces: seq<string>)
    requires forall i :: 0 <= i < |pieces| ==> '/' !in pieces[i]
    ensures forall i :: 0 <= i < |Filter(pieces)| ==> Proper(Filter(pieces)[i])
  {
    if pieces != [] {
      FilterPieces(pieces[1..]);
    }
  }

  lemma ComponentsProper(path: string)
    ensures forall i :: 0 <= i < |Components(path)| ==> Proper(Components(path)[i])
  {
    SplitPieces(path);
    FilterPieces(Split(path));
  }

  lemma {:induction false} TrimComponents(path: string)
    ensures Components(Trim(path)) == Components(path)
  {
    if Absolute(path) {
      TrimComponents(path[1..]);
      assert ([""] + Split(path[1..]))[1..] == Split(path[1..]);
    }
  }

  lemma {:induction false} SplitWhole(c: string)
    requires '/' !in c
    ensures Split(c) == [c]
  {
    if c != "" {
      SplitWhole(c[1..]);
      assert [c[0]] + c[1..] == c;
    }
  }

  lemma ComponentsOfOne(c: string)
    requires Proper(c)
    ensures Components(c) == [c]
  {
    SplitWhole(c);
    assert Filter([c]) == [c] + Filter([c][1..]);
  }

  /** Joining proper components and taking the path apart again changes nothing. */
  lemma {:induction false} ComponentsJoin(cs: seq<string>)
    requires forall i :: 0 <= i < |cs| ==> Proper(cs[i])
    ensures Components(Join(cs)) == cs && !Absolute(Join(cs))
  {
    if |cs| == 0 {
      assert Split("") == [""] && Filter([""]) == Filter([""][1..]);
    } else if |cs| == 1 {
      ComponentsOfOne(cs[0]);
    } else {
      ComponentsJoin(cs[1..]);
      ComponentsOfOne(cs[0]);
      ComponentsConcat(cs[0], Join(cs[1..]));
      assert cs == [cs[0]] + cs[1..];
    }
  }

  // Looking up.

  function Find(entries: seq<Entry>, name: string): Option<Entry> {
    if entries == [] then None else if entries[0].name == name then Some(entries[0]) else Find(entries[1..], name)
  }

  /** The reference: component by component, a link's target resolved one level deeper. */
  function Resolve(fs: Fs, start: nat, cs: seq<string>, depth: nat): Result<nat, Error>
    decreases MAX_DEPTH + 1 - depth, |cs|
  {
    if depth > MAX_DEPTH then Err(TooManySymlinks)
    else if cs == [] then Ok(start)
    else if cs[0] == ".." then Resolve(fs, ROOT_INO, cs[1..], depth)
    else if start !in fs.dirs then Err(Unreadable(start))
    else
      match Find(fs.dirs[start], cs[0])
      case None => Err(NotFound)
      case Some(e) =>
        if e.ftype != SYMLINK then Resolve(fs, e.ino, cs[1..], depth)
        else if e.ino !in fs.links then Err(Unreadable(e.ino))
        else
          var target := fs.links[e.ino];
          match Resolve(fs, if Absolute(target) then ROOT_INO else start, Components(target), depth + 1)
          case Err(err) => Err(err)
          case Ok(ino) => Resolve(fs, ino, cs[1..], depth)
  }

  function Lookup(fs: Fs, start: nat, path: string, depth: nat): Result<nat, Error> {
    Resolve(fs, if Absolute(path) then ROOT_INO else start, Components(path), depth)
  }

  /** The code: it rejoins the rest of the path after a link, and still computes the reference. */
  method LookupFrom(fs: Fs, start: nat, path: string, depth: nat) returns (r: Result<nat, Error>)
    ensures r == Lookup(fs, start, path, depth)
    decreases MAX_DEPTH + 1 - depth, |Components(path)|, if Absolute(path) then 1 else 0
  {
    if depth > MAX_DEPTH {
      return Err(TooManySymlinks);
    }
    if Absolute(path) {
      TrimComponents(path);
      r := LookupFrom(fs, ROOT_INO, Trim(path), depth);
      return;
    }
    if path == "" {
      return Ok(start);
    }
    var current: nat := start;
    var components := Components(path);
    ComponentsProper(path);
    for idx := 0 to |components|
      invariant Resolve(fs, start, components, depth) == Resolve(fs, current, components[idx..], depth)
    {
      var c, rest := components[idx], components[idx + 1..];
      assert components[idx..][1..] == rest;
      if c == ".." {
        current := ROOT_INO;
        continue;
      }
      if current !in fs.dirs {
        return Err(Unreadable(current));
      }
      var found := Find(fs.dirs[current], c);
      if found.None? {
        return Err(NotFound);
      }
      var parent := current;
      current := found.value.ino;
      if found.value.ftype == SYMLINK {
        if current !in fs.links {
          return Err(Unreadable(current));
        }
        var target := fs.links[current];
        var followed;
        if Absolute(target) {
          TrimComponents(target);
          followed := LookupFrom(fs, ROOT_INO, Trim(target), depth + 1);
        } else {
          followed := LookupFrom(fs, parent, target, depth + 1);
        }
        if followed.Err? {
          return followed;
        }
        current := followed.value;
        if idx + 1 < |components| {
          ComponentsJoin(rest);
          r := LookupFrom(fs, current, Join(rest), depth);
          return;
        }
      }
    }
    return Ok(current);
  }

  // What follows about lookups.

  lemma {:induction false} ResolveConcat(fs: Fs, start: nat, a: seq<string>, b: seq<string>, depth: nat)
    ensures Resolve(fs, start, a + b, depth) ==
              match Resolve(fs, start, a, depth) { case Err(e) => Err(e) case Ok(i) => Resolve(fs, i, b, depth) }
    decreases |a|
  {
    if a == [] {
      assert a + b == b;
    } else {
      assert (a + b)[1..] == a[1..] + b && (a + b)[0] == a[0];
      forall s: nat { ResolveConcat(fs, s, a[1..], b, depth); }
    }
  }

  /** Looking up `p/q` is looking up `q` from where `p` leads. */
  lemma LookupComposes(fs: Fs, start: nat, p: string, q: string, depth: nat)
    requires p != "" && !Absolute(p) && !Absolute(q)
    ensures Lookup(fs, start, p + "/" + q, depth) ==
              match Lookup(fs, start, p, depth) { case Err(e) => Err(e) case Ok(i) => Lookup(fs, i, q, depth) }
  {
    ComponentsConcat(p, q);
    ResolveConcat(fs, start, Components(p), Components(q), depth);
  }

  /** The depth limit decides nothing but whether the limit is hit. */
  lemma {:induction false} DepthOnlyLimits(fs: Fs, start: nat, cs: seq<string>, depth: nat, less: nat)
    requires less <= depth && Resolve(fs, start, cs, depth) != Err(TooManySymlinks)
    ensures Resolve(fs, start, cs, less) == Resolve(fs, start, cs, depth)
    decreases MAX_DEPTH + 1 - depth, |cs|
  {
    if cs != [] && depth <= MAX_DEPTH {
      if cs[0] == ".." {
        DepthOnlyLimits(fs, ROOT_INO, cs[1..], depth, less);
      } else if start in fs.dirs && Find(fs.dirs[start], cs[0]).Some? {
        var e := Find(fs.dirs[start], cs[0]).value;
        if e.ftype != SYMLINK {
          DepthOnlyLimits(fs, e.ino, cs[1..], depth, less);
        } else if e.ino in fs.links {
          var target := fs.links[e.ino];
          var base := if Absolute(target) then ROOT_INO else start;
          DepthOnlyLimits(fs, base, Components(target), depth + 1, less + 1);
          var followed := Resolve(fs, base, Components(target), depth + 1);
          if followed.Ok? {
            DepthOnlyLimits(fs, followed.value, cs[1..], depth, less);
          }
        }
      }
    }
  }

  /** A link to itself is refused, at any depth. */
  lemma {:induction false} SelfLinkRefused(fs: Fs, dir: nat, name: string, depth: nat)
    requires dir in fs.dirs && Find(fs.dirs[dir], name).Some? && name != ".." && Proper(name)
    requires var e := Find(fs.dirs[dir], name).value; e.ftype == SYMLINK && e.ino in fs.links && fs.links[e.ino] == name
    ensures Resolve(fs, dir, [name], depth) == Err(TooManySymlinks)
    decreases MAX_DEPTH + 1 - depth
  {
    if depth <= MAX_DEPTH {
      ComponentsOfOne(name);
      SelfLinkRefused(fs, dir, name, depth + 1);
    }
  }
}
