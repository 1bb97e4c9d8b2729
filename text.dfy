/**
 * Character-sequence helpers shared by the models: Python's `str.split(sep)` for a
 * one-character separator, its inverse `sep.join(parts)`, and prefix/substring tests.
 */
module Text {

  /** `s.startswith(p)` */
  predicate StartsWith(s: string, p: string) {
    |p| <= |s| && s[..|p|] == p
  }

  /** `p in s` for strings */
  predicate Contains(s: string, p: string) {
    exists i :: 0 <= i <= |s| && StartsWith(s[i..], p)
  }

  /** `sep.join(parts)`; the empty list joins to the empty string. */
  function Join(parts: seq<string>, sep: char): string
  {
    if |parts| == 0 then ""
    else if |parts| == 1 then parts[0]
    else parts[0] + [sep] + Join(parts[1..], sep)
  }

  /** Joining a concatenation puts one separator between the two joined halves. */
  lemma {:induction false} JoinAppend(a: seq<string>, b: seq<string>, sep: char)
    requires |a| >= 1 && |b| >= 1
    ensures Join(a + b, sep) == Join(a, sep) + [sep] + Join(b, sep)
    decreases |a|
  {
    if |a| == 1 {
      assert (a + b)[1..] == b;
    } else {
      JoinAppend(a[1..], b, sep);
      assert (a + b)[1..] == a[1..] + b;
    }
  }

  /** `s.split(sep)`: never empty, and no part contains the separator. */
  function Split(s: string, sep: char): (parts: seq<string>)
    ensures |parts| >= 1
    ensures forall k :: 0 <= k < |parts| ==> sep !in parts[k]
    ensures Join(parts, sep) == s
    decreases |s|
  {
    if |s| == 0 then [""]
    else
      var rest := Split(s[1..], sep);
      if s[0] == sep then [""] + rest
      else [[s[0]] + rest[0]] + rest[1..]
  }

  /** Splitting undoes joining whenever no part holds the separator. */
  lemma {:induction false} SplitJoin(parts: seq<string>, sep: char)
    requires |parts| >= 1
    requires forall k :: 0 <= k < |parts| ==> sep !in parts[k]
    ensures Split(Join(parts, sep), sep) == parts
    decreases |parts|, |parts[0]|
  {
    var p := parts[0];
    if |p| == 0 {
      if |parts| == 1 {
        assert Join(parts, sep) == "";
      } else {
        var rest := Join(parts[1..], sep);
        calc {
          Split(Join(parts, sep), sep);
          { assert Join(parts, sep) == [sep] + rest; }
          Split([sep] + rest, sep);
          { SplitAfterSep(rest, sep); }
          [""] + Split(rest, sep);
          { SplitJoin(parts[1..], sep); }
          [""] + parts[1..];
          { assert parts == [p] + parts[1..]; }
          parts;
        }
      }
    } else {
      var parts' := [p[1..]] + parts[1..];
      var j' := Join(parts', sep);
      assert p[0] != sep by { assert p[0] in p; }
      calc {
        Split(Join(parts, sep), sep);
        { assert Join(parts, sep) == [p[0]] + j' by {
            if |parts| > 1 {
              assert p == [p[0]] + p[1..];
              assert parts'[1..] == parts[1..];
            }
          }
        }
        Split([p[0]] + j', sep);
        { SplitAfterChar(p[0], j', sep); }
        [[p[0]] + Split(j', sep)[0]] + Split(j', sep)[1..];
        { SplitJoin(parts', sep); }
        [[p[0]] + parts'[0]] + parts'[1..];
        { assert [p[0]] + p[1..] == p; assert parts'[1..] == parts[1..]; }
        [p] + parts[1..];
        { assert [p] + parts[1..] == parts; }
        parts;
      }
    }
  }

  /** A leading separator starts a new, empty part. */
  lemma SplitAfterSep(s: string, sep: char)
    ensures Split([sep] + s, sep) == [""] + Split(s, sep)
  {
    assert ([sep] + s)[1..] == s;
  }

  /** Any other leading character joins the first part. */
  lemma SplitAfterChar(c: char, s: string, sep: char)
    requires c != sep
    ensures Split([c] + s, sep) == [[c] + Split(s, sep)[0]] + Split(s, sep)[1..]
  {
    assert ([c] + s)[1..] == s;
  }
}
