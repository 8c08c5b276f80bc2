/**
 * The JavaScript string operations the converter relies on, restated over
 * `seq<char>`: `indexOf`, `replace` with a string pattern, `split` on one
 * character, `join`, and the ASCII part of upper-casing.
 */
module Text {
  import opened Wrappers

  /** `\w` of a JavaScript regular expression: an ASCII letter, digit or underscore. */
  predicate IsWordChar(c: char) {
    ('a' <= c <= 'z') || ('A' <= c <= 'Z') || ('0' <= c <= '9') || c == '_'
  }

  /** `p` occurs in `s` starting at position `i`. */
  predicate OccursAt(s: string, p: string, i: nat) {
    i + |p| <= |s| && s[i..i + |p|] == p
  }

  lemma OccursAtTail(s: string, p: string, i: nat)
    requires |s| > 0
    ensures OccursAt(s, p, i + 1) <==> OccursAt(s[1..], p, i)
  {
    if i + 1 + |p| <= |s| {
      assert s[i + 1..i + 1 + |p|] == s[1..][i..i + |p|];
    }
  }

  /** `x` occurs in `a + x + b` right after `a`. */
  lemma OccursAtSplice(a: string, x: string, b: string)
    ensures OccursAt(a + x + b, x, |a|)
  {
    assert (a + x + b)[|a|..|a| + |x|] == x;
  }

  /** `s.indexOf(p)`: the first position at which `p` occurs in `s`, if any. */
  function IndexOf(s: string, p: string): (r: Option<nat>)
    ensures r.Some? ==> OccursAt(s, p, r.value)
    ensures r.Some? ==> forall j: nat :: j < r.value ==> !OccursAt(s, p, j)
    ensures r.None? ==> forall j: nat :: !OccursAt(s, p, j)
    decreases |s|
  {
    if |s| < |p| then None
    else if s[..|p|] == p then Some(0)
    else
      var r := IndexOf(s[1..], p);
      assert forall j: nat :: OccursAt(s, p, j + 1) <==> OccursAt(s[1..], p, j) by {
        forall j: nat ensures OccursAt(s, p, j + 1) <==> OccursAt(s[1..], p, j) {
          OccursAtTail(s, p, j);
        }
      }
      assert !OccursAt(s, p, 0);
      if r.None? then
        assert forall j: nat :: !OccursAt(s, p, j) by {
          forall j: nat ensures !OccursAt(s, p, j) {
            if j > 0 { assert OccursAt(s, p, (j - 1) + 1) <==> OccursAt(s[1..], p, j - 1); }
          }
        }
        None
      else
        assert forall j: nat :: j < r.value + 1 ==> !OccursAt(s, p, j) by {
          forall j: nat | j < r.value + 1 ensures !OccursAt(s, p, j) {
            if j > 0 { assert OccursAt(s, p, (j - 1) + 1) <==> OccursAt(s[1..], p, j - 1); }
          }
        }
        Some(r.value + 1)
  }

  /**
   * `s.replace(p, rep)` with a string pattern: only the first occurrence of
   * `p` is replaced; `s` is returned unchanged when `p` does not occur.
   * (JavaScript's `$` patterns in `rep` are not modelled; no replacement
   * string built by the converter contains `$`.)
   */
  function ReplaceFirst(s: string, p: string, rep: string): (r: string)
    ensures (forall j: nat :: !OccursAt(s, p, j)) ==> r == s
    ensures (exists j: nat :: OccursAt(s, p, j)) ==> |r| == |s| - |p| + |rep|
  {
    match IndexOf(s, p)
    case None => s
    case Some(i) => s[..i] + rep + s[i + |p|..]
  }

  /**
   * Replacing the first occurrence: when `p` occurs at `k` and nowhere
   * before, exactly that occurrence is replaced.
   */
  lemma ReplaceFirstAt(s: string, p: string, rep: string, k: nat)
    requires OccursAt(s, p, k)
    requires forall j: nat :: j < k ==> !OccursAt(s, p, j)
    ensures ReplaceFirst(s, p, rep) == s[..k] + rep + s[k + |p|..]
  {
    var r := IndexOf(s, p);
    assert r.Some?;
  }

  /** `s.split(sep)` for a one-character separator: always at least one part. */
  function Split(s: string, sep: char): (parts: seq<string>)
    ensures |parts| >= 1
    ensures forall i :: 0 <= i < |parts| ==> sep !in parts[i]
    decreases |s|
  {
    if |s| == 0 then [""]
    else
      var rest := Split(s[1..], sep);
      if s[0] == sep then [""] + rest
      else [[s[0]] + rest[0]] + rest[1..]
  }

  /** `parts.join(sep)`. */
  function Join(parts: seq<string>, sep: string): string
    decreases |parts|
  {
    if |parts| == 0 then ""
    else if |parts| == 1 then parts[0]
    else parts[0] + sep + Join(parts[1..], sep)
  }

  /** An occurrence stays one when text is added on either side. */
  lemma OccursAtWiden(a: string, s: string, b: string, p: string, k: nat)
    requires OccursAt(s, p, k)
    ensures OccursAt(a + s + b, p, |a| + k)
  {
    assert (a + s + b)[|a| + k..|a| + k + |p|] == s[k..k + |p|];
  }

  /** An occurrence in the text after a prefix is an occurrence in the whole, shifted by the prefix. */
  lemma OccursAfter(s: string, n: nat, p: string, k: nat)
    requires n <= |s| && OccursAt(s[n..], p, k)
    ensures OccursAt(s, p, n + k)
  {
    assert s[n + k..n + k + |p|] == s[n..][k..k + |p|];
  }

  /** Each part occurs in the joined string, whatever follows it. */
  lemma {:induction false} JoinHoldsPart(parts: seq<string>, sep: string, tail: string, i: nat)
    requires i < |parts|
    ensures exists k: nat :: OccursAt(Join(parts, sep) + tail, parts[i], k)
    decreases |parts|
  {
    if i == 0 {
      var rest := (if |parts| == 1 then "" else sep + Join(parts[1..], sep)) + tail;
      assert Join(parts, sep) + tail == parts[0] + rest;
      assert OccursAt(Join(parts, sep) + tail, parts[0], 0) by {
        assert (parts[0] + rest)[0..|parts[0]|] == parts[0];
      }
    } else {
      var j := Join(parts[1..], sep);
      JoinHoldsPart(parts[1..], sep, tail, i - 1);
      var k: nat :| OccursAt(j + tail, parts[1..][i - 1], k);
      OccursAtWiden(parts[0] + sep, j + tail, "", parts[i], k);
      assert parts[0] + sep + (j + tail) + "" == Join(parts, sep) + tail;
    }
  }

  /** Joining the parts of a split with the separator gives back the string. */
  lemma {:induction false} JoinSplit(s: string, sep: char)
    ensures Join(Split(s, sep), [sep]) == s
    decreases |s|
  {
    if |s| > 0 {
      var rest := Split(s[1..], sep);
      JoinSplit(s[1..], sep);
      if s[0] == sep {
        assert Split(s, sep) == [""] + rest;
        assert ([""] + rest)[1..] == rest;
      } else {
        var parts := [[s[0]] + rest[0]] + rest[1..];
        assert Split(s, sep) == parts;
        if |rest| == 1 {
          assert Join(parts, [sep]) == [s[0]] + rest[0];
        } else {
          assert parts[1..] == rest[1..];
          assert Join(rest, [sep]) == rest[0] + [sep] + Join(rest[1..], [sep]);
        }
        assert s == [s[0]] + s[1..];
      }
    }
  }

  lemma {:induction false} SplitPrefix(a: string, t: string, sep: char)
    requires sep !in a
    ensures Split(a + t, sep) == [a + Split(t, sep)[0]] + Split(t, sep)[1..]
    decreases |a|
  {
    if |a| > 0 {
      var st := Split(t, sep);
      var x := a + t;
      assert x[0] == a[0] && x[1..] == a[1..] + t;
      SplitPrefix(a[1..], t, sep);
      var rest := Split(x[1..], sep);
      assert Split(x, sep) == [[x[0]] + rest[0]] + rest[1..];
      assert [a[0]] + (a[1..] + st[0]) == a + st[0];
    } else {
      var st := Split(t, sep);
      assert a + t == t;
      assert a + st[0] == st[0];
      assert st == [st[0]] + st[1..];
    }
  }

  /** Splitting a join of separator-free parts gives back the parts. */
  lemma {:induction false} SplitJoin(parts: seq<string>, sep: char)
    requires |parts| >= 1
    requires forall i :: 0 <= i < |parts| ==> sep !in parts[i]
    ensures Split(Join(parts, [sep]), sep) == parts
    decreases |parts|
  {
    if |parts| == 1 {
      SplitPrefix(parts[0], "", sep);
      assert parts[0] + "" == parts[0];
    } else {
      var tail := Join(parts[1..], [sep]);
      SplitJoin(parts[1..], sep);
      assert Join(parts, [sep]) == parts[0] + ([sep] + tail);
      SplitPrefix(parts[0], [sep] + tail, sep);
      assert ([sep] + tail)[1..] == tail;
      var x := Split([sep] + tail, sep);
      assert x == [""] + parts[1..];
      assert x[0] == "" && x[1..] == parts[1..];
      assert parts[0] + x[0] == parts[0];
      assert parts == [parts[0]] + parts[1..];
    }
  }

  /** ASCII upper-casing of one character. */
  function UpperChar(c: char): char {
    if 'a' <= c <= 'z' then (c as int - 32) as char else c
  }

  /**
   * Upper-casing a string, restricted to ASCII: every lower-case letter
   * becomes its capital, every other character stays.
   */
  function Upper(s: string): (r: string)
    ensures |r| == |s|
    ensures forall i :: 0 <= i < |s| ==> !('a' <= r[i] <= 'z')
    ensures forall i :: 0 <= i < |s| && !('a' <= s[i] <= 'z') ==> r[i] == s[i]
    ensures forall i :: 0 <= i < |s| && 'a' <= s[i] <= 'z' ==> r[i] as int == s[i] as int - 32
    decreases |s|
  {
    if |s| == 0 then "" else [UpperChar(s[0])] + Upper(s[1..])
  }

  /** Upper-casing is idempotent. */
  lemma UpperIdempotent(s: string)
    ensures Upper(Upper(s)) == Upper(s)
  {
    var u := Upper(s);
    assert forall i :: 0 <= i < |u| ==> Upper(u)[i] == u[i];
  }
}
