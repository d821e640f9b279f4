/**
 The file-extension rule of the watcher: the extension of a path is the last
 piece of `path.split('.')`, i.e. the text after the last '.' of the whole
 path, or the whole path when it holds no '.'.
 Split follows Python's `str.split(sep)` with an explicit one-character separator.
 */
module Paths {

  /** The pieces of `s` between occurrences of `sep`, in order.
      Like Python's `s.split(sep)`, there is always at least one piece
      (the empty string splits into `[""]`), and no piece contains `sep`. */
  function Split(s: string, sep: char): (parts: seq<string>)
    ensures |parts| >= 1
    ensures forall k :: 0 <= k < |parts| ==> sep !in parts[k]
  {
    if s == [] then [[]]
    else
      var rest := Split(s[1..], sep);
      if s[0] == sep then [[]] + rest
      else [[s[0]] + rest[0]] + rest[1..]
  }

  /** `sep.join(parts)`: the inverse of Split. */
  function Join(parts: seq<string>, sep: char): string
    requires |parts| >= 1
  {
    if |parts| == 1 then parts[0] else parts[0] + [sep] + Join(parts[1..], sep)
  }

  /** Joining the pieces of a split gives back the original string. */
  lemma {:induction false} JoinSplit(s: string, sep: char)
    ensures Join(Split(s, sep), sep) == s
  {
    if s != [] {
      var rest := Split(s[1..], sep);
      JoinSplit(s[1..], sep);
      if s[0] == sep {
        assert ([[]] + rest)[1..] == rest;
      } else {
        var parts := [[s[0]] + rest[0]] + rest[1..];
        if |rest| > 1 {
          assert parts[1..] == rest[1..];
        }
      }
    }
  }

  /** Splitting a string whose first piece is `p` (free of `sep`). */
  lemma {:induction false} SplitPrefix(p: string, tail: string, sep: char)
    requires sep !in p
    ensures Split(p + tail, sep) == [p + Split(tail, sep)[0]] + Split(tail, sep)[1..]
  {
    if p != [] {
      assert (p + tail)[1..] == p[1..] + tail;
      SplitPrefix(p[1..], tail, sep);
      assert [p[0]] + (p[1..] + Split(tail, sep)[0]) == p + Split(tail, sep)[0];
    } else {
      var parts := Split(tail, sep);
      assert p + tail == tail;
      assert p + parts[0] == parts[0];
      assert parts == [parts[0]] + parts[1..];
    }
  }

  /** Splitting a join of `sep`-free pieces gives back the pieces. */
  lemma {:induction false} SplitJoin(parts: seq<string>, sep: char)
    requires |parts| >= 1
    requires forall k :: 0 <= k < |parts| ==> sep !in parts[k]
    ensures Split(Join(parts, sep), sep) == parts
  {
    if |parts| == 1 {
      SplitPrefix(parts[0], [], sep);
      assert parts[0] + [] == parts[0];
    } else {
      var t := Join(parts[1..], sep);
      SplitJoin(parts[1..], sep);
      assert ([sep] + t)[1..] == t;
      SplitPrefix(parts[0], [sep] + t, sep);
      assert parts[0] + [sep] + t == parts[0] + ([sep] + t);
      assert parts[0] + [] == parts[0];
      assert parts == [parts[0]] + parts[1..];
    }
  }

  /** Joining all pieces equals joining all but the last, then `sep`, then the last. */
  lemma {:induction false} JoinLast(parts: seq<string>, sep: char)
    requires |parts| >= 2
    ensures Join(parts, sep) == Join(parts[..|parts| - 1], sep) + [sep] + parts[|parts| - 1]
  {
    if |parts| > 2 {
      JoinLast(parts[1..], sep);
      assert parts[1..][..|parts| - 2] == parts[..|parts| - 1][1..];
    }
  }

  /** `path.split('.')[-1]`. */
  function Extension(path: string): string
  {
    var parts := Split(path, '.');
    parts[|parts| - 1]
  }

  /** The extension is the text after the last '.' of the path: it holds no '.',
      and it is either the whole path (no '.' at all) or a suffix right after a '.'. */
  lemma ExtensionAfterLastDot(path: string)
    ensures '.' !in Extension(path)
    ensures '.' !in path ==> Extension(path) == path
    ensures '.' in path ==>
      |Extension(path)| < |path| &&
      path == path[..|path| - |Extension(path)| - 1] + "." + Extension(path)
  {
    var parts := Split(path, '.');
    var ext := Extension(path);
    JoinSplit(path, '.');
    if |parts| == 1 {
      assert path == parts[0];
    } else {
      JoinLast(parts, '.');
      var prefix := Join(parts[..|parts| - 1], '.');
      assert path == prefix + "." + ext;
      assert path[|prefix|] == '.';
      assert path[..|path| - |ext| - 1] == prefix;
    }
  }
}
