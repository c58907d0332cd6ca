/**
 * String helpers the attendance server relies on: JavaScript's
 * `String.prototype.split` on a one-character separator, its inverse `join`,
 * and the order SQLite uses to compare TEXT values (BINARY collation), which
 * is what `date BETWEEN ? AND ?` evaluates.
 */
module Strings {

  /** The pieces of `s` between occurrences of `sep`, as `s.split(sep)` returns them. */
  function Split(s: string, sep: char): (parts: seq<string>)
    ensures |parts| >= 1
    ensures forall i :: 0 <= i < |parts| ==> sep !in parts[i]
  {
    if |s| == 0 then [""]
    else
      var rest := Split(s[1..], sep);
      if s[0] == sep then [""] + rest
      else [[s[0]] + rest[0]] + rest[1..]
  }

  /** `parts.join(sep)`: the pieces glued back together with `sep` between them. */
  function Join(parts: seq<string>, sep: char): string
    requires |parts| >= 1
  {
    if |parts| == 1 then parts[0] else parts[0] + [sep] + Join(parts[1..], sep)
  }

  /** Splitting loses nothing: joining the pieces gives back the original string. */
  lemma {:induction false} JoinSplit(s: string, sep: char)
    ensures Join(Split(s, sep), sep) == s
  {
    if |s| > 0 {
      var rest := Split(s[1..], sep);
      JoinSplit(s[1..], sep);
      if s[0] == sep {
        var parts := [""] + rest;
        assert Split(s, sep) == parts;
        assert parts[1..] == rest;
        assert Join(parts, sep) == "" + [sep] + Join(rest, sep);
        assert s == [s[0]] + s[1..];
      } else {
        var parts := [[s[0]] + rest[0]] + rest[1..];
        assert Split(s, sep) == parts;
        if |rest| == 1 {
          assert Join(parts, sep) == [s[0]] + rest[0];
        } else {
          var tail := Join(rest[1..], sep);
          assert parts[1..] == rest[1..];
          assert Join(rest, sep) == rest[0] + [sep] + tail;
          assert Join(parts, sep) == ([s[0]] + rest[0]) + [sep] + tail;
        }
        assert s == [s[0]] + s[1..];
      }
    }
  }

  /**
   * The first piece is the text before the first separator, all of `s` when
   * there is none; after that separator the rest splits into the remaining pieces.
   */
  lemma {:induction false} FirstPiece(s: string, sep: char)
    ensures var parts := Split(s, sep);
      && |parts[0]| <= |s|
      && s[..|parts[0]|] == parts[0]
      && (|parts| == 1 ==> parts[0] == s)
      && (|parts| > 1 ==>
            && |parts[0]| < |s|
            && s[|parts[0]|] == sep
            && Split(s[|parts[0]| + 1..], sep) == parts[1..])
  {
    if |s| > 0 {
      var rest := Split(s[1..], sep);
      if s[0] == sep {
        assert Split(s, sep) == [""] + rest;
      } else {
        FirstPiece(s[1..], sep);
        var parts := [[s[0]] + rest[0]] + rest[1..];
        assert Split(s, sep) == parts;
        var k := |rest[0]|;
        assert s[..k + 1] == [s[0]] + s[1..][..k];
        if |rest| > 1 {
          assert s[1..][k + 1..] == s[k + 2..];
          assert parts[1..] == rest[1..];
        } else {
          assert s == [s[0]] + s[1..];
        }
      }
    }
  }

  /** Prefixing a separator-free `p` glues it onto the first piece. */
  lemma {:induction false} SplitPrepend(p: string, t: string, sep: char)
    requires sep !in p
    ensures Split(p + t, sep) == [p + Split(t, sep)[0]] + Split(t, sep)[1..]
  {
    if |p| == 0 {
      var r := Split(t, sep);
      assert p + t == t && p + r[0] == r[0];
      assert r == [r[0]] + r[1..];
    } else {
      var c := p[0];
      var u := p + t;
      assert u[0] == c && c != sep;
      assert u[1..] == p[1..] + t;
      SplitPrepend(p[1..], t, sep);
      var r := Split(u[1..], sep);
      assert Split(u, sep) == [[c] + r[0]] + r[1..];
      assert [c] + (p[1..] + Split(t, sep)[0]) == p + Split(t, sep)[0];
    }
  }

  /** Splitting a joined list of separator-free pieces gives the pieces back. */
  lemma {:induction false} SplitJoin(parts: seq<string>, sep: char)
    requires |parts| >= 1
    requires forall i :: 0 <= i < |parts| ==> sep !in parts[i]
    ensures Split(Join(parts, sep), sep) == parts
  {
    if |parts| == 1 {
      SplitPrepend(parts[0], "", sep);
      assert parts[0] + "" == parts[0];
      assert Split("", sep) == [""];
    } else {
      var rest := parts[1..];
      var tail := Join(rest, sep);
      SplitJoin(rest, sep);
      var u := [sep] + tail;
      assert u[0] == sep && u[1..] == tail;
      var S := Split(u, sep);
      assert S == [""] + rest;
      assert Join(parts, sep) == parts[0] + u;
      SplitPrepend(parts[0], u, sep);
      assert S[0] == "" && S[1..] == rest;
      assert parts[0] + S[0] == parts[0];
      assert [parts[0]] + rest == parts;
    }
  }

  /**
   * SQLite's BINARY collation on TEXT: compare code point by code point, a
   * proper prefix sorting first. For ASCII dates `YYYY-MM-DD` this is the
   * chronological order.
   */
  predicate LexLe(a: string, b: string)
  {
    if |a| == 0 then true
    else if |b| == 0 then false
    else a[0] < b[0] || (a[0] == b[0] && LexLe(a[1..], b[1..]))
  }

  lemma {:induction false} LexLeReflexive(a: string)
    ensures LexLe(a, a)
  {
    if |a| > 0 {
      LexLeReflexive(a[1..]);
    }
  }

  lemma {:induction false} LexLeAntisymmetric(a: string, b: string)
    requires LexLe(a, b) && LexLe(b, a)
    ensures a == b
  {
    if |a| > 0 && |b| > 0 {
      LexLeAntisymmetric(a[1..], b[1..]);
      assert a == [a[0]] + a[1..];
      assert b == [b[0]] + b[1..];
    }
  }

  lemma {:induction false} LexLeTransitive(a: string, b: string, c: string)
    requires LexLe(a, b) && LexLe(b, c)
    ensures LexLe(a, c)
  {
    if |a| > 0 && |b| > 0 && |c| > 0 && a[0] == b[0] && b[0] == c[0] {
      LexLeTransitive(a[1..], b[1..], c[1..]);
    }
  }
}
