/** The pieces of Python's string, list and path library that the plugin's
    handlers lean on, written out so that their behaviour is part of the model:
    `str.split` and `str.join` on a one-character separator, the substring
    test `sub in s`, `list.insert` with Python's index
    normalisation, and `posixpath.join` for two components. `RFind`, the
    last occurrence of a character, is a reference definition used to say
    what the split-and-join expressions compute. */
module PyText {

  datatype Option<T> = None | Some(value: T)

  /** `s.split(sep)`: the maximal runs between occurrences of `sep`, scanned
      left to right; an empty string splits into one empty part. */
  function Split(s: string, sep: char): (parts: seq<string>)
    ensures |parts| >= 1
    ensures forall i :: 0 <= i < |parts| ==> sep !in parts[i]
    decreases |s|
  {
    if s == [] then [[]]
    else
      var rest := Split(s[1..], sep);
      if s[0] == sep then [[]] + rest
      else [[s[0]] + rest[0]] + rest[1..]
  }

  /** `sep.join(parts)`. */
  function Join(sep: char, parts: seq<string>): (s: string)
    ensures |parts| == 1 ==> s == parts[0]
    ensures |parts| == 0 ==> s == []
  {
    if |parts| == 0 then []
    else if |parts| == 1 then parts[0]
    else parts[0] + [sep] + Join(sep, parts[1..])
  }

  /** The index of the last occurrence of `c` in `s`, or -1 (what Python's
      `s.rfind(c)` returns). */
  function RFind(s: string, c: char): (k: int)
    ensures -1 <= k < |s|
    ensures k == -1 <==> c !in s
    ensures k >= 0 ==> s[k] == c
    ensures forall j :: k < j < |s| ==> s[j] != c
    decreases |s|
  {
    if s == [] then -1
    else if s[|s| - 1] == c then |s| - 1
    else RFind(s[..|s| - 1], c)
  }

  /** The Python test `sub in s` on strings, as a left-to-right scan. */
  function HasSubstring(s: string, sub: string): bool
    decreases |s|
  {
    if |sub| <= |s| && s[..|sub|] == sub then true
    else if s == [] then false
    else HasSubstring(s[1..], sub)
  }

  /** Python's `list.insert(i, x)` moves a negative index up by the length
      and then clamps it into `0..len`. */
  function InsertIndex(i: int, n: nat): (j: nat)
    ensures j <= n
  {
    var k := if i < 0 then i + n else i;
    if k < 0 then 0 else if k > n then n else k
  }

  /** `s.insert(i, x)` on a list, as the value the list holds afterwards. */
  function PyInsert<T>(s: seq<T>, i: int, x: T): (r: seq<T>)
    ensures |r| == |s| + 1
    ensures r[InsertIndex(i, |s|)] == x
    ensures forall k :: 0 <= k < InsertIndex(i, |s|) ==> r[k] == s[k]
    ensures forall k :: InsertIndex(i, |s|) <= k < |s| ==> r[k + 1] == s[k]
  {
    var j := InsertIndex(i, |s|);
    s[..j] + [x] + s[j..]
  }

  /** `posixpath.join(a, b)` for two components: an absolute `b` replaces
      `a`; otherwise `b` follows `a`, with one '/' between them exactly when
      `a` is non-empty and does not already end in '/'. */
  function PathJoin(a: string, b: string): (p: string)
    ensures |b| <= |p| && p[|p| - |b|..] == b
    ensures |b| > 0 && b[0] == '/' ==> p == b
    ensures (b == [] || b[0] != '/') ==> |a| <= |p| && p[..|a|] == a
    ensures (b == [] || b[0] != '/') ==>
              |p| == |a| + |b| + (if a != [] && a[|a| - 1] != '/' then 1 else 0)
    ensures (b == [] || b[0] != '/') && |p| > |a| + |b| ==> p[|a|] == '/'
  {
    if |b| > 0 && b[0] == '/' then b
    else if a == [] || a[|a| - 1] == '/' then a + b
    else a + "/" + b
  }

  // ---------------------------------------------------------------- lemmas

  /** A string without the separator is a single part. */
  lemma {:induction false} SplitNoSep(s: string, sep: char)
    requires sep !in s
    ensures Split(s, sep) == [s]
    decreases |s|
  {
    if s != [] {
      assert s[0] in s;
      assert forall c :: c in s[1..] ==> c in s;
      SplitNoSep(s[1..], sep);
      assert [s[0]] + s[1..] == s;
    }
  }

  /** Splitting at a separator followed by separator-free text adds that text
      as a new last part. */
  lemma {:induction false} SplitLastSep(a: string, sep: char, b: string)
    requires sep !in b
    ensures Split(a + [sep] + b, sep) == Split(a, sep) + [b]
    decreases |a|
  {
    if a == [] {
      assert [sep] + b == a + [sep] + b;
      calc {
        Split([sep] + b, sep);
        { assert ([sep] + b)[1..] == b; }
        [[]] + Split(b, sep);
        { SplitNoSep(b, sep); }
        [[]] + [b];
      }
    } else {
      var s := a + [sep] + b;
      assert s[0] == a[0];
      assert s[1..] == a[1..] + [sep] + b;
      SplitLastSep(a[1..], sep, b);
    }
  }

  /** A separator-free first part followed by the separator splits off as
      the first part. */
  lemma {:induction false} SplitFirstSep(a: string, sep: char, b: string)
    requires sep !in a
    ensures Split(a + [sep] + b, sep) == [a] + Split(b, sep)
    decreases |a|
  {
    if a == [] {
      assert a + [sep] + b == [sep] + b;
      assert ([sep] + b)[1..] == b;
    } else {
      var s := a + [sep] + b;
      assert s[0] == a[0];
      assert s[1..] == a[1..] + [sep] + b;
      SplitFirstSep(a[1..], sep, b);
      assert [a[0]] + a[1..] == a;
    }
  }

  /** `sep.join(s.split(sep)) == s`. */
  lemma {:induction false} JoinSplit(s: string, sep: char)
    ensures Join(sep, Split(s, sep)) == s
    decreases |s|
  {
    if s != [] {
      JoinSplit(s[1..], sep);
      var rest := Split(s[1..], sep);
      if s[0] != sep && |rest| > 1 {
        assert Join(sep, rest) == rest[0] + [sep] + Join(sep, rest[1..]);
      }
    }
  }

  /** `sep.join(parts).split(sep) == parts` when no part holds the separator. */
  lemma {:induction false} SplitJoin(sep: char, parts: seq<string>)
    requires |parts| >= 1
    requires forall i :: 0 <= i < |parts| ==> sep !in parts[i]
    ensures Split(Join(sep, parts), sep) == parts
    decreases |parts|
  {
    if |parts| == 1 {
      SplitNoSep(parts[0], sep);
    } else {
      SplitJoin(sep, parts[1..]);
      SplitFirstSep(parts[0], sep, Join(sep, parts[1..]));
    }
  }

  /** `sub` occurs in `s` starting at index `i`. */
  predicate OccursAt(s: string, sub: string, i: nat)
  {
    i + |sub| <= |s| && s[i..i + |sub|] == sub
  }

  /** The scan `HasSubstring` agrees with "`sub` occurs somewhere in `s`". */
  lemma {:induction false} HasSubstringIff(s: string, sub: string)
    ensures HasSubstring(s, sub) <==> exists i: nat :: OccursAt(s, sub, i)
    decreases |s|
  {
    if |sub| <= |s| && s[..|sub|] == sub {
      assert OccursAt(s, sub, 0);
    } else if s == [] {
    } else {
      HasSubstringIff(s[1..], sub);
      if exists i: nat :: OccursAt(s, sub, i) {
        var i: nat :| OccursAt(s, sub, i);
        assert i != 0;
        assert s[1..][i - 1..i - 1 + |sub|] == s[i..i + |sub|];
        assert OccursAt(s[1..], sub, i - 1);
      }
      if exists i: nat :: OccursAt(s[1..], sub, i) {
        var i: nat :| OccursAt(s[1..], sub, i);
        assert s[1..][i..i + |sub|] == s[i + 1..i + 1 + |sub|];
        assert OccursAt(s, sub, i + 1);
      }
    }
  }

  /** A file name without '/' joined to a non-empty directory lies directly
      in that directory: the last '/' of the path is the one just before the
      name, and the text up to it is the directory with one trailing '/'. */
  lemma PathJoinInDirectory(dir: string, name: string)
    requires dir != []
    requires '/' !in name
    ensures var p := PathJoin(dir, name);
            var k := RFind(p, '/');
            && k == |p| - |name| - 1
            && p[k + 1..] == name
            && p[..k + 1] == if dir[|dir| - 1] == '/' then dir else dir + "/"
  {
    var head := if dir[|dir| - 1] == '/' then dir else dir + "/";
    var p := PathJoin(dir, name);
    assert p == head + name;
    LastBeforeTail(head, name, '/');
  }

  /** In `head + tail`, where `head` ends with `c` and `tail` does not hold
      `c`, the last `c` is the last character of `head`. */
  lemma LastBeforeTail(head: string, tail: string, c: char)
    requires head != [] && head[|head| - 1] == c
    requires c !in tail
    ensures RFind(head + tail, c) == |head| - 1
  {
    var s := head + tail;
    assert s[|head| - 1] == c;
    forall j | |head| <= j < |s| ensures s[j] != c {
      assert s[j] == tail[j - |head|];
    }
  }

  /** `insert(-3, x)` puts `x` at index max(0, len - 3): before the last three
      items, or first in a list of fewer than three; every old item keeps its
      relative order, so deleting the new item gives back the old list. */
  lemma InsertMinusThree<T>(s: seq<T>, x: T)
    ensures var k := if |s| >= 3 then |s| - 3 else 0;
            var r := PyInsert(s, -3, x);
            r[k] == x && r[..k] + r[k + 1..] == s
  {
  }
}
