/**
 * The string services the drop handler relies on: the .NET path helpers
 * `Path.GetExtension` and `Path.GetFileName`, lower-casing, and the
 * case-insensitive ordering used by `Array.Sort` on the dropped batch.
 * Case folding is modelled on ASCII letters only.
 */
module PathText {

  /** ASCII lower-casing of one character. */
  function Lower(c: char): char {
    if 'A' <= c <= 'Z' then (c as int + 32) as char else c
  }

  /** `String.ToLower`, character by character. */
  function LowerString(s: string): string {
    seq(|s|, i requires 0 <= i < |s| => Lower(s[i]))
  }

  /** Directory, alternate directory and volume separators of a Windows path. */
  predicate IsSeparator(c: char) {
    c == '\\' || c == '/' || c == ':'
  }

  /** No dot and no separator anywhere in `s`. */
  predicate NoDotOrSeparator(s: string) {
    forall m :: 0 <= m < |s| ==> s[m] != '.' && !IsSeparator(s[m])
  }

  /** No separator anywhere in `s`. */
  predicate NoSeparator(s: string) {
    forall m :: 0 <= m < |s| ==> !IsSeparator(s[m])
  }

  /**
   * `Path.GetExtension`: the suffix from the last dot of the last path
   * segment, dot included; empty when that segment has no dot or ends in one.
   */
  function Extension(path: string): string {
    ExtensionBefore(path, |path|)
  }

  /** The backward scan of `Extension` over the positions below `i`. */
  function ExtensionBefore(path: string, i: nat): string
    requires i <= |path|
    decreases i
  {
    if i == 0 then []
    else if path[i - 1] == '.' then (if i == |path| then [] else path[i - 1..])
    else if IsSeparator(path[i - 1]) then []
    else ExtensionBefore(path, i - 1)
  }

  /**
   * A non-empty extension is a dot and the rest of the path after it, with
   * no further dot or separator; an empty one means every dot but a final
   * one is followed by another dot or a separator.
   */
  lemma ExtensionSpec(path: string)
    ensures var ext := Extension(path);
      && (ext != [] ==>
            2 <= |ext| <= |path| && ext[0] == '.' && ext == path[|path| - |ext|..] && NoDotOrSeparator(ext[1..]))
      && (ext == [] ==>
            forall k :: 0 <= k < |path| - 1 && path[k] == '.' ==> !NoDotOrSeparator(path[k + 1..]))
  {
    assert NoDotOrSeparator(path[|path|..]);
    ExtensionBeforeSpec(path, |path|);
  }

  lemma {:induction false} ExtensionBeforeSpec(path: string, i: nat)
    requires i <= |path| && NoDotOrSeparator(path[i..])
    ensures var ext := ExtensionBefore(path, i);
      && (ext != [] ==>
            2 <= |ext| <= |path| && ext[0] == '.' && ext == path[|path| - |ext|..] && NoDotOrSeparator(ext[1..]))
      && (ext == [] ==>
            forall k :: 0 <= k < |path| - 1 && path[k] == '.' ==> !NoDotOrSeparator(path[k + 1..]))
    decreases i
  {
    if i == 0 {
      forall k | 0 <= k < |path| ensures path[k] != '.' {
        assert path[k] == path[i..][k];
      }
    } else if path[i - 1] == '.' {
      if i == |path| {
        forall k | 0 <= k < |path| - 1 && path[k] == '.' ensures !NoDotOrSeparator(path[k + 1..]) {
          assert path[k + 1..][|path| - 1 - (k + 1)] == '.';
        }
      } else {
        assert path[i..] == path[i - 1..][1..];
      }
    } else if IsSeparator(path[i - 1]) {
      forall k | 0 <= k < |path| - 1 && path[k] == '.' ensures !NoDotOrSeparator(path[k + 1..]) {
        if k < i - 1 {
          assert IsSeparator(path[k + 1..][i - 1 - (k + 1)]);
        }
      }
    } else {
      assert path[i - 1..] == [path[i - 1]] + path[i..];
      ExtensionBeforeSpec(path, i - 1);
    }
  }

  /**
   * `Path.GetFileName`: the suffix after the last separator, or the whole
   * path when it has none.
   */
  function FileName(path: string): string {
    FileNameBefore(path, |path|)
  }

  /** The backward scan of `FileName` over the positions below `i`. */
  function FileNameBefore(path: string, i: nat): string
    requires i <= |path|
    decreases i
  {
    if i == 0 then path
    else if IsSeparator(path[i - 1]) then path[i..]
    else FileNameBefore(path, i - 1)
  }

  /** The file name is the longest suffix of the path without a separator. */
  lemma FileNameSpec(path: string)
    ensures var name := FileName(path);
      && |name| <= |path| && name == path[|path| - |name|..] && NoSeparator(name)
      && (|name| < |path| ==> IsSeparator(path[|path| - |name| - 1]))
  {
    assert NoSeparator(path[|path|..]);
    FileNameBeforeSpec(path, |path|);
  }

  lemma {:induction false} FileNameBeforeSpec(path: string, i: nat)
    requires i <= |path| && NoSeparator(path[i..])
    ensures var name := FileNameBefore(path, i);
      && |name| <= |path| && name == path[|path| - |name|..] && NoSeparator(name)
      && (|name| < |path| ==> IsSeparator(path[|path| - |name| - 1]))
    decreases i
  {
    if i == 0 {
      assert path[i..] == path;
    } else if !IsSeparator(path[i - 1]) {
      assert path[i - 1..] == [path[i - 1]] + path[i..];
      FileNameBeforeSpec(path, i - 1);
    }
  }

  /** Ordinal (code point) lexicographic order: `a` sorts before or with `b`. */
  predicate LexLe(a: string, b: string) {
    if a == [] then true
    else if b == [] then false
    else if a[0] != b[0] then a[0] < b[0]
    else LexLe(a[1..], b[1..])
  }

  /** The case-insensitive comparer: order of the lower-cased strings. */
  predicate KeyLe(a: string, b: string) {
    LexLe(LowerString(a), LowerString(b))
  }

  lemma {:induction false} LexLeTotal(a: string, b: string)
    ensures LexLe(a, b) || LexLe(b, a)
  {
    if a != [] && b != [] && a[0] == b[0] {
      LexLeTotal(a[1..], b[1..]);
    }
  }

  lemma {:induction false} LexLeTransitive(a: string, b: string, c: string)
    requires LexLe(a, b) && LexLe(b, c)
    ensures LexLe(a, c)
  {
    if a != [] && b != [] && c != [] && a[0] == b[0] && b[0] == c[0] {
      LexLeTransitive(a[1..], b[1..], c[1..]);
    }
  }

  /** The comparer is a total preorder: any two paths are comparable. */
  lemma KeyLeTotal(a: string, b: string)
    ensures KeyLe(a, b) || KeyLe(b, a)
  {
    LexLeTotal(LowerString(a), LowerString(b));
  }

  /** The comparer is a total preorder: it is transitive. */
  lemma KeyLeTransitive(a: string, b: string, c: string)
    requires KeyLe(a, b) && KeyLe(b, c)
    ensures KeyLe(a, c)
  {
    LexLeTransitive(LowerString(a), LowerString(b), LowerString(c));
  }

  /** Every earlier path sorts before or with every later one. */
  ghost predicate SortedByKey(s: seq<string>) {
    forall i, j :: 0 <= i < j < |s| ==> KeyLe(s[i], s[j])
  }

  /** Insert `x` before the first element it sorts before or with. */
  function Insert(x: string, s: seq<string>): (r: seq<string>)
    ensures multiset(r) == multiset(s) + multiset{x}
  {
    if s == [] then [x]
    else if KeyLe(x, s[0]) then [x] + s
    else
      assert s == [s[0]] + s[1..];
      [s[0]] + Insert(x, s[1..])
  }

  lemma {:induction false} InsertKeepsSorted(x: string, s: seq<string>)
    requires SortedByKey(s)
    ensures SortedByKey(Insert(x, s))
  {
    if s == [] {
    } else if KeyLe(x, s[0]) {
      forall j | 0 < j < |s| ensures KeyLe(x, s[j]) {
        KeyLeTransitive(x, s[0], s[j]);
      }
    } else {
      var tail := Insert(x, s[1..]);
      InsertKeepsSorted(x, s[1..]);
      forall j | 0 <= j < |tail| ensures KeyLe(s[0], tail[j]) {
        assert tail[j] in multiset(tail);
        if tail[j] == x {
          KeyLeTotal(x, s[0]);
        } else {
          assert tail[j] in multiset(s[1..]);
          var k :| 0 <= k < |s[1..]| && s[1..][k] == tail[j];
          assert s[k + 1] == tail[j];
        }
      }
    }
  }

  /**
   * `Array.Sort` with the case-insensitive comparer, as an insertion sort.
   * The library sort is not stable, so the order among paths that differ
   * only in case is not fixed by the source; this one is one admissible order.
   */
  function SortByKey(s: seq<string>): (r: seq<string>)
    ensures multiset(r) == multiset(s)
  {
    if s == [] then []
    else
      assert s == [s[0]] + s[1..];
      Insert(s[0], SortByKey(s[1..]))
  }

  /** The sorted batch is in case-insensitive order. */
  lemma {:induction false} SortByKeySorted(s: seq<string>)
    ensures SortedByKey(SortByKey(s))
  {
    if s != [] {
      SortByKeySorted(s[1..]);
      InsertKeepsSorted(s[0], SortByKey(s[1..]));
    }
  }
}
