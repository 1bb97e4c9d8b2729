/**
 * The containment guard of the file routes: resolve `abspath(join(root, name))` and
 * answer 403 unless `commonpath([file, root]) == root`. POSIX path semantics: `join`
 * restarts at an absolute part, `normpath` drops empty and "." components and lets
 * ".." remove its predecessor (never climbing above "/"), and `commonpath` compares
 * whole components.
 */
module Paths {
  import opened Text

  predicate IsAbs(p: string) {
    |p| > 0 && p[0] == '/'
  }

  /** `posixpath.join(a, b)` */
  function Join2(a: string, b: string): (r: string)
    ensures IsAbs(a) ==> IsAbs(r)
  {
    if IsAbs(b) then b
    else if a == "" || a[|a| - 1] == '/' then a + b
    else a + "/" + b
  }

  /** `posixpath.join(a, *parts)` */
  function JoinAll(a: string, parts: seq<string>): (r: string)
    ensures IsAbs(a) ==> IsAbs(r)
    decreases |parts|
  {
    if |parts| == 0 then a else JoinAll(Join2(a, parts[0]), parts[1..])
  }

  /** A component that `normpath` and `commonpath` keep: not empty and not ".". */
  predicate Kept(c: string) {
    c != "" && c != "."
  }

  /** A component of a normalised absolute path: kept, not "..", and free of separators. */
  predicate Clean(c: string) {
    Kept(c) && c != ".." && '/' !in c
  }

  function Keep(cs: seq<string>): (r: seq<string>)
    ensures forall k :: 0 <= k < |r| ==> Kept(r[k])
    ensures forall c :: c in r ==> c in cs
  {
    if |cs| == 0 then [] else (if Kept(cs[0]) then [cs[0]] else []) + Keep(cs[1..])
  }

  /** The components of p that `commonpath` compares. */
  function Components(p: string): (cs: seq<string>)
    ensures forall k :: 0 <= k < |cs| ==> Kept(cs[k]) && '/' !in cs[k]
  {
    var parts := Split(p, '/');
    assert forall c :: c in parts ==> '/' !in c;
    Keep(parts)
  }

  /** How `normpath` treats the components of an absolute path: ".." drops the last kept one, if any. */
  function Resolve(cs: seq<string>): (r: seq<string>)
    requires forall k :: 0 <= k < |cs| ==> Kept(cs[k]) && '/' !in cs[k]
    ensures forall k :: 0 <= k < |r| ==> Clean(r[k])
  {
    if |cs| == 0 then []
    else
      var init := Resolve(cs[..|cs| - 1]);
      var c := cs[|cs| - 1];
      if c == ".." then (if |init| == 0 then [] else init[..|init| - 1])
      else init + [c]
  }

  /** `posixpath.normpath` of an absolute path; exactly two leading slashes are kept as they are. */
  function NormPath(p: string): (r: string)
    requires IsAbs(p)
    ensures IsAbs(r)
  {
    var lead := if |p| >= 2 && p[1] == '/' && (|p| == 2 || p[2] != '/') then "//" else "/";
    lead + Join(Resolve(Components(p)), '/')
  }

  /** The longest common prefix of two component lists. */
  function CommonPrefix(a: seq<string>, b: seq<string>): (r: seq<string>)
    ensures |r| <= |a| && |r| <= |b| && r == a[..|r|] && r == b[..|r|]
    ensures |r| < |a| && |r| < |b| ==> a[|r|] != b[|r|]
  {
    if |a| == 0 || |b| == 0 || a[0] != b[0] then []
    else [a[0]] + CommonPrefix(a[1..], b[1..])
  }

  /** `posixpath.commonpath([a, b])` for two absolute paths. */
  function CommonPath(a: string, b: string): (r: string)
    requires IsAbs(a) && IsAbs(b)
    ensures IsAbs(r) && Canonical(r)
    ensures Components(r) == CommonPrefix(Components(a), Components(b))
  {
    var cp := CommonPrefix(Components(a), Components(b));
    assert forall k :: 0 <= k < |cp| ==> cp[k] == Components(a)[k];
    ComponentsOfWritten("/", cp);
    "/" + Join(cp, '/')
  }

  /** root is written the way `commonpath` writes paths: "/" and its components, nothing else. */
  predicate Canonical(root: string) {
    root == "/" + Join(Components(root), '/')
  }

  predicate IsPrefix(a: seq<string>, b: seq<string>) {
    |a| <= |b| && b[..|a|] == a
  }

  lemma {:induction false} KeepAll(cs: seq<string>)
    requires forall k :: 0 <= k < |cs| ==> Kept(cs[k])
    ensures Keep(cs) == cs
  {
    if |cs| > 0 {
      KeepAll(cs[1..]);
    }
  }

  /** A leading separator splits off one empty part. */
  lemma SplitLeadingSlash(s: string)
    ensures Split("/" + s, '/') == [""] + Split(s, '/')
  {
    assert ("/" + s)[1..] == s;
  }

  lemma KeepDropsEmpty(cs: seq<string>)
    ensures Keep([""] + cs) == Keep(cs)
  {
    assert ([""] + cs)[1..] == cs;
  }

  /** Splitting the joined components and keeping the non-empty ones gives them back. */
  lemma KeepSplitJoin(cs: seq<string>)
    requires forall k :: 0 <= k < |cs| ==> Kept(cs[k]) && '/' !in cs[k]
    ensures Keep(Split(Join(cs, '/'), '/')) == cs
  {
    if |cs| == 0 {
      assert Split("", '/') == [""];
    } else {
      SplitJoin(cs, '/');
      KeepAll(cs);
    }
  }

  /** Components of "/" followed by s are the kept parts of s. */
  lemma ComponentsAfterSlash(s: string)
    ensures Components("/" + s) == Keep(Split(s, '/'))
  {
    SplitLeadingSlash(s);
    KeepDropsEmpty(Split(s, '/'));
  }

  /** Reading the components back from a path written as lead + components is exact. */
  lemma ComponentsOfWritten(lead: string, cs: seq<string>)
    requires lead == "/" || lead == "//"
    requires forall k :: 0 <= k < |cs| ==> Kept(cs[k]) && '/' !in cs[k]
    ensures Components(lead + Join(cs, '/')) == cs
  {
    var j := Join(cs, '/');
    KeepSplitJoin(cs);
    if lead == "/" {
      ComponentsAfterSlash(j);
    } else {
      DoubleSlash(j);
    }
  }

  /** A second leading separator adds only one more empty part, which is dropped. */
  lemma DoubleSlash(j: string)
    ensures Components("//" + j) == Keep(Split(j, '/'))
  {
    var t := "/" + j;
    assert "//" + j == "/" + t;
    calc {
      Components("//" + j);
      Components("/" + t);
      { ComponentsAfterSlash(t); }
      Keep(Split(t, '/'));
      { SplitLeadingSlash(j); }
      Keep([""] + Split(j, '/'));
      { KeepDropsEmpty(Split(j, '/')); }
      Keep(Split(j, '/'));
    }
  }

  /** Components that are already clean resolve to themselves. */
  lemma {:induction false} ResolveClean(cs: seq<string>)
    requires forall k :: 0 <= k < |cs| ==> Kept(cs[k]) && cs[k] != ".." && '/' !in cs[k]
    ensures Resolve(cs) == cs
  {
    if |cs| > 0 {
      ResolveClean(cs[..|cs| - 1]);
    }
  }

  /** A normalised path has exactly the resolved components: no "..", ".", or empty one is left. */
  lemma NormPathComponents(p: string)
    requires IsAbs(p)
    ensures Components(NormPath(p)) == Resolve(Components(p))
    ensures forall k :: 0 <= k < |Components(NormPath(p))| ==> Clean(Components(NormPath(p))[k])
  {
    var lead := if |p| >= 2 && p[1] == '/' && (|p| == 2 || p[2] != '/') then "//" else "/";
    ComponentsOfWritten(lead, Resolve(Components(p)));
  }

  /** Soundness of the guard: when it passes, file's components begin with root's components. */
  lemma GuardSound(file: string, root: string)
    requires IsAbs(file) && IsAbs(root)
    ensures CommonPath(file, root) == root ==> IsPrefix(Components(root), Components(file))
  {
    var cp := CommonPrefix(Components(file), Components(root));
    assert |cp| <= |Components(file)| && Components(file)[..|cp|] == cp;
  }

  /** Completeness for a canonical root: a file below root passes the guard. */
  lemma GuardComplete(file: string, root: string)
    requires IsAbs(file) && IsAbs(root)
    ensures Canonical(root) && IsPrefix(Components(root), Components(file)) ==> CommonPath(file, root) == root
  {
    var f, r := Components(file), Components(root);
    if IsPrefix(r, f) {
      var cp := CommonPrefix(f, r);
      assert cp == r;
    }
  }

  /** What a file route answers: 403, or the file it serves. */
  datatype FileReply = Forbidden | ServeFile(path: string)

  /**
   * The containment test every file route performs on `abspath(joined)` against `root`.
   * A served file is normalised (no "..", "." or empty component) and lies below root,
   * component by component; for a canonical root, every file below root is served, and
   * a root in any other form refuses everything, since `commonpath` never returns one.
   */
  function Guarded(root: string, joined: string): (r: FileReply)
    requires IsAbs(root) && IsAbs(joined)
    ensures r.ServeFile? ==>
      && r.path == NormPath(joined)
      && IsPrefix(Components(root), Components(r.path))
      && forall k :: 0 <= k < |Components(r.path)| ==> Clean(Components(r.path)[k])
    ensures Canonical(root) ==>
      (r.ServeFile? <==> IsPrefix(Components(root), Resolve(Components(joined))))
    ensures !Canonical(root) ==> r == Forbidden
  {
    var file := NormPath(joined);
    NormPathComponents(joined);
    GuardSound(file, root);
    GuardComplete(file, root);
    if CommonPath(file, root) != root then Forbidden else ServeFile(file)
  }

  /** The configured folders (`directories`): all absolute. */
  datatype Dirs = Dirs(node: string, workflow: string, psinput: string, psimg: string) {
    predicate Valid() {
      IsAbs(node) && IsAbs(workflow) && IsAbs(psinput) && IsAbs(psimg)
    }
  }

  /** `GET /ps/workflows/{name}`: the file `name + ".json"` under the workflow folder. */
  function GetWorkflow(d: Dirs, name: string): FileReply
    requires d.Valid()
  {
    Guarded(d.workflow, Join2(d.workflow, name + ".json"))
  }

  /** `GET /ps/inputs/{filename}`: the file under the image input folder. */
  function GetInput(d: Dirs, filename: string): FileReply
    requires d.Valid()
  {
    Guarded(d.psimg, Join2(d.psimg, filename))
  }

  /** `GET /ps/error.png`: the fixed placeholder under the input folder. */
  function GetErrorImage(d: Dirs): FileReply
    requires d.Valid()
  {
    Guarded(d.psinput, Join2(d.psinput, "NoImage.png"))
  }

  /** `GET /ps/icons/{filename}.svg`: the icon under `data/comfyIcons`, checked against the node folder. */
  function GetLogo(d: Dirs, filename: string): FileReply
    requires d.Valid()
  {
    Guarded(d.node, JoinAll(d.node, ["data", "comfyIcons", filename + ".svg"]))
  }

  /**
   * Every file route serves the normalised form of the file it was asked for, and only
   * when that file lies inside the folder the route checks against.
   */
  lemma RoutesConfined(d: Dirs, name: string)
    requires d.Valid()
    ensures GetWorkflow(d, name).ServeFile? ==>
      && GetWorkflow(d, name).path == NormPath(Join2(d.workflow, name + ".json"))
      && IsPrefix(Components(d.workflow), Components(GetWorkflow(d, name).path))
    ensures GetInput(d, name).ServeFile? ==>
      && GetInput(d, name).path == NormPath(Join2(d.psimg, name))
      && IsPrefix(Components(d.psimg), Components(GetInput(d, name).path))
    ensures GetErrorImage(d).ServeFile? ==>
      && GetErrorImage(d).path == NormPath(Join2(d.psinput, "NoImage.png"))
      && IsPrefix(Components(d.psinput), Components(GetErrorImage(d).path))
    ensures GetLogo(d, name).ServeFile? ==>
      && GetLogo(d, name).path == NormPath(JoinAll(d.node, ["data", "comfyIcons", name + ".svg"]))
      && IsPrefix(Components(d.node), Components(GetLogo(d, name).path))
  {
  }

  /** For a canonical root, a path whose resolved components do not start with root's is refused. */
  lemma RefusedOutside(root: string, joined: string, rootParts: seq<string>, resolved: seq<string>)
    requires IsAbs(root) && IsAbs(joined) && Canonical(root)
    requires Components(root) == rootParts && Resolve(Components(joined)) == resolved
    requires !IsPrefix(rootParts, resolved)
    ensures Guarded(root, joined) == Forbidden
  {
  }

  /** A path written as "/" and clean components is canonical and has exactly those components. */
  lemma WrittenCanonical(parts: seq<string>)
    requires forall k :: 0 <= k < |parts| ==> Clean(parts[k])
    ensures Components("/" + Join(parts, '/')) == parts
    ensures Canonical("/" + Join(parts, '/'))
  {
    ComponentsOfWritten("/", parts);
  }

  /** Lengthening the last component lengthens the joined string by the same characters. */
  lemma JoinExtendLast(init: seq<string>, last: string, suffix: string)
    ensures Join(init + [last + suffix], '/') == Join(init + [last], '/') + suffix
  {
    if |init| == 0 {
      assert init + [last + suffix] == [last + suffix];
      assert init + [last] == [last];
    } else {
      JoinAppend(init, [last + suffix], '/');
      JoinAppend(init, [last], '/');
    }
  }

  /** A component extended by more characters is still clean. */
  lemma ExtendedClean(last: string, suffix: string)
    requires Clean(last) && suffix != "" && '/' !in suffix
    ensures Clean(last + suffix) && last + suffix != last
  {
    var sib := last + suffix;
    assert '/' !in sib by {
      assert forall c :: c in sib ==> c in last || c in suffix;
    }
    if |sib| == 2 {
      assert last == sib[..1];
    }
  }

  /** The string side of a sibling: its joined form starts with root's joined form. */
  lemma SiblingText(parent: seq<string>, last: string, suffix: string, rest: seq<string>)
    ensures StartsWith("/" + Join(parent + [last + suffix] + rest, '/'), "/" + Join(parent + [last], '/'))
  {
    var sib := last + suffix;
    var fileParts := parent + [sib] + rest;
    var tail := if |rest| == 0 then "" else "/" + Join(rest, '/');
    var j := Join(fileParts, '/');
    assert j == Join(parent + [sib], '/') + tail by {
      if |rest| > 0 {
        JoinAppend(parent + [sib], rest, '/');
      } else {
        assert fileParts == parent + [sib];
      }
    }
    var r := Join(parent + [last], '/');
    assert j == r + (suffix + tail) by {
      JoinExtendLast(parent, last, suffix);
    }
    assert ("/" + j)[..|"/" + r|] == "/" + r;
  }

  /**
   * A sibling folder whose name merely extends root's last component (root "/a/b",
   * file "/a/bc/...") passes a plain string-prefix test but is refused by the
   * component-wise guard.
   */
  lemma SiblingRefused(root: string, joined: string, parent: seq<string>, last: string, suffix: string, rest: seq<string>)
    requires forall k :: 0 <= k < |parent| ==> Clean(parent[k])
    requires Clean(last) && suffix != "" && '/' !in suffix
    requires forall k :: 0 <= k < |rest| ==> Clean(rest[k])
    requires root == "/" + Join(parent + [last], '/')
    requires joined == "/" + Join(parent + [last + suffix] + rest, '/')
    ensures StartsWith(joined, root)
    ensures Guarded(root, joined) == Forbidden
  {
    SiblingParts(parent, last, suffix, rest);
    RefusedOutside(root, joined, parent + [last], parent + [last + suffix] + rest);
    SiblingText(parent, last, suffix, rest);
  }

  /** The component side of a sibling: root's and the sibling path's components diverge. */
  lemma SiblingParts(parent: seq<string>, last: string, suffix: string, rest: seq<string>)
    requires forall k :: 0 <= k < |parent| ==> Clean(parent[k])
    requires Clean(last) && suffix != "" && '/' !in suffix
    requires forall k :: 0 <= k < |rest| ==> Clean(rest[k])
    ensures var rootParts := parent + [last];
      && Components("/" + Join(rootParts, '/')) == rootParts
      && Canonical("/" + Join(rootParts, '/'))
    ensures var fileParts := parent + [last + suffix] + rest;
      Resolve(Components("/" + Join(fileParts, '/'))) == fileParts
    ensures !IsPrefix(parent + [last], parent + [last + suffix] + rest)
  {
    var rootParts := parent + [last];
    var sib := last + suffix;
    var fileParts := parent + [sib] + rest;
    assert Clean(sib) && sib != last by { ExtendedClean(last, suffix); }
    assert Components("/" + Join(rootParts, '/')) == rootParts && Canonical("/" + Join(rootParts, '/')) by {
      CleanSplice(parent, last, []);
      assert parent + [last] + [] == rootParts;
      WrittenCanonical(rootParts);
    }
    assert Resolve(Components("/" + Join(fileParts, '/'))) == fileParts by {
      CleanSplice(parent, sib, rest);
      WrittenCanonical(fileParts);
      ResolveClean(fileParts);
    }
    assert |rootParts| <= |fileParts|;
    assert fileParts[..|rootParts|][|parent|] == sib;
  }

  /** Clean lists spliced around a clean component stay clean. */
  lemma CleanSplice(parent: seq<string>, c: string, rest: seq<string>)
    requires forall k :: 0 <= k < |parent| ==> Clean(parent[k])
    requires Clean(c)
    requires forall k :: 0 <= k < |rest| ==> Clean(rest[k])
    ensures forall k :: 0 <= k < |parent + [c] + rest| ==> Clean((parent + [c] + rest)[k])
  {
  }

  /** Clean components followed by ".." and x resolve to all but the last of them, then x. */
  lemma ResolveStepBack(parts: seq<string>, x: string)
    requires |parts| >= 1 && forall k :: 0 <= k < |parts| ==> Clean(parts[k])
    requires Clean(x)
    ensures forall k :: 0 <= k < |parts + ["..", x]| ==> Kept((parts + ["..", x])[k]) && '/' !in (parts + ["..", x])[k]
    ensures Resolve(parts + ["..", x]) == parts[..|parts| - 1] + [x]
  {
    var n := |parts|;
    var written := parts + ["..", x];
    ResolveClean(parts);
    assert written[..n + 1] == parts + [".."];
    assert (parts + [".."])[..n] == parts;
  }

  /** The joined components end with the last component's last character. */
  lemma JoinEndsWithLast(parts: seq<string>)
    requires |parts| >= 1 && parts[|parts| - 1] != ""
    ensures var j := Join(parts, '/'); |j| > 0 && j[|j| - 1] == parts[|parts| - 1][|parts[|parts| - 1]| - 1]
  {
    var n := |parts|;
    if n > 1 {
      JoinAppend(parts[..n - 1], [parts[n - 1]], '/');
      assert parts[..n - 1] + [parts[n - 1]] == parts;
    }
  }

  /** ".." and x joined. */
  lemma JoinUpThen(x: string)
    ensures Join(["..", x], '/') == "../" + x
  {
    assert ["..", x][1..] == [x];
  }

  /** Root written from clean components does not end in a separator. */
  lemma WrittenNoTrailingSlash(parts: seq<string>)
    requires |parts| >= 1 && forall k :: 0 <= k < |parts| ==> Clean(parts[k])
    ensures var root := "/" + Join(parts, '/'); root[|root| - 1] != '/'
  {
    var last := parts[|parts| - 1];
    JoinEndsWithLast(parts);
    assert last[|last| - 1] in last;
  }

  /** The string side of climbing out: joining "../x" onto root writes root's components, "..", x. */
  lemma DotDotText(parts: seq<string>, x: string)
    requires |parts| >= 1 && forall k :: 0 <= k < |parts| ==> Clean(parts[k])
    ensures Join2("/" + Join(parts, '/'), "../" + x) == "/" + Join(parts + ["..", x], '/')
  {
    var root := "/" + Join(parts, '/');
    var name := "../" + x;
    assert Join2(root, name) == root + "/" + name by {
      WrittenNoTrailingSlash(parts);
      assert !IsAbs(name);
    }
    assert "/" + Join(parts + ["..", x], '/') == root + "/" + name by {
      JoinDotDot(parts, x);
    }
  }

  lemma JoinDotDot(parts: seq<string>, x: string)
    requires |parts| >= 1
    ensures "/" + Join(parts + ["..", x], '/') == "/" + Join(parts, '/') + "/" + ("../" + x)
  {
    var j := Join(parts, '/');
    assert Join(parts + ["..", x], '/') == j + "/" + ("../" + x) by {
      JoinAppend(parts, ["..", x], '/');
      JoinUpThen(x);
    }
    Regroup("/", j, "/", "../" + x);
  }

  /** Re-associating a concatenation, kept apart so no surrounding fact about Join enters its proof. */
  lemma Regroup(a: string, b: string, c: string, d: string)
    ensures a + (b + c + d) == a + b + c + d
  {
  }

  /**
   * A name that climbs out of root with ".." to a sibling ("../x" under "/a/b", reaching
   * "/a/x") is refused.
   */
  lemma DotDotRefused(root: string, name: string, parts: seq<string>, x: string)
    requires |parts| >= 1 && forall k :: 0 <= k < |parts| ==> Clean(parts[k])
    requires Clean(x) && x != parts[|parts| - 1]
    requires root == "/" + Join(parts, '/') && name == "../" + x
    ensures IsAbs(Join2(root, name))
    ensures Guarded(root, Join2(root, name)) == Forbidden
  {
    var up := parts[..|parts| - 1];
    DotDotResolved(parts, x);
    WrittenCanonical(parts);
    assert !IsPrefix(parts, up + [x]) by { assert (up + [x])[|parts| - 1] == x; }
    RefusedOutside(root, Join2(root, name), parts, up + [x]);
  }

  /** "../x" joined onto "/" and clean parts resolves to the parent's parts followed by x. */
  lemma DotDotResolved(parts: seq<string>, x: string)
    requires |parts| >= 1 && forall k :: 0 <= k < |parts| ==> Clean(parts[k])
    requires Clean(x)
    ensures Resolve(Components(Join2("/" + Join(parts, '/'), "../" + x))) == parts[..|parts| - 1] + [x]
  {
    var written := parts + ["..", x];
    DotDotText(parts, x);
    ResolveStepBack(parts, x);
    ComponentsOfWritten("/", written);
  }
}
