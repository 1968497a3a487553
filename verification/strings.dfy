/** The few string operations of JavaScript the model needs, on `seq<char>`. */
module Strings {

  /** `s.startsWith(prefix)` */
  predicate StartsWith(s: string, prefix: string) {
    |prefix| <= |s| && s[..|prefix|] == prefix
  }

  /** A prefix of a prefix is a prefix. */
  lemma StartsWithTrans(s: string, mid: string, prefix: string)
    requires StartsWith(s, mid) && StartsWith(mid, prefix)
    ensures StartsWith(s, prefix)
  {
    assert s[..|prefix|] == s[..|mid|][..|prefix|];
  }

  /** `s.endsWith(suffix)` */
  predicate EndsWith(s: string, suffix: string) {
    |suffix| <= |s| && s[|s| - |suffix|..] == suffix
  }

  /** `sub` occurs in `s` starting at position `i`. */
  predicate OccursAt(s: string, sub: string, i: int) {
    0 <= i && i + |sub| <= |s| && s[i..i + |sub|] == sub
  }

  /** `s.includes(sub)`, scanning left to right. */
  predicate Contains(s: string, sub: string)
    decreases |s|
  {
    StartsWith(s, sub) || (|s| > 0 && Contains(s[1..], sub))
  }

  /** An occurrence at any position is found by the scan. */
  lemma {:induction false} OccursContains(s: string, sub: string, i: int)
    requires OccursAt(s, sub, i)
    ensures Contains(s, sub)
    decreases i
  {
    if i == 0 {
      assert s[..|sub|] == s[0..0 + |sub|];
    } else {
      assert s[1..][i - 1..i - 1 + |sub|] == s[i..i + |sub|];
      OccursContains(s[1..], sub, i - 1);
    }
  }

  /** The scan finds `sub` exactly when it occurs at some position. */
  lemma {:induction false} ContainsIffOccurs(s: string, sub: string)
    ensures Contains(s, sub) <==> exists i :: OccursAt(s, sub, i)
    decreases |s|
  {
    if exists i :: OccursAt(s, sub, i) {
      var i :| OccursAt(s, sub, i);
      OccursContains(s, sub, i);
    }
    if Contains(s, sub) {
      if StartsWith(s, sub) {
        assert s[0..0 + |sub|] == s[..|sub|];
        assert OccursAt(s, sub, 0);
      } else {
        ContainsIffOccurs(s[1..], sub);
        var i :| OccursAt(s[1..], sub, i);
        assert s[1..][i..i + |sub|] == s[i + 1..i + 1 + |sub|];
        assert OccursAt(s, sub, i + 1);
      }
    }
  }

  /** Appending to a string never removes an occurrence: a path that lies under a
      marked segment keeps the mark in all its extensions. */
  lemma {:induction false} ContainsExtend(s: string, t: string, sub: string)
    requires Contains(s, sub)
    ensures Contains(s + t, sub)
    decreases |s|
  {
    if StartsWith(s, sub) {
      assert (s + t)[..|sub|] == s[..|sub|];
    } else {
      ContainsExtend(s[1..], t, sub);
      assert (s + t)[1..] == s[1..] + t;
    }
  }

  /** A string that starts with one containing `sub` contains it too. */
  lemma ContainsUnder(s: string, p: string, sub: string)
    requires StartsWith(s, p) && Contains(p, sub)
    ensures Contains(s, sub)
  {
    assert s == p + s[|p|..];
    ContainsExtend(p, s[|p|..], sub);
  }

  /** A string shorter than `sub` cannot contain it. */
  lemma {:induction false} ShortNotContains(s: string, sub: string)
    requires |s| < |sub|
    ensures !Contains(s, sub)
    decreases |s|
  {
    if |s| > 0 {
      ShortNotContains(s[1..], sub);
    }
  }

  /** `parts.join(sep)` */
  function Join(parts: seq<string>, sep: string): string
    decreases |parts|
  {
    if |parts| == 0 then ""
    else if |parts| == 1 then parts[0]
    else parts[0] + sep + Join(parts[1..], sep)
  }

  /** `s.split(sep)` for a one-character separator: the pieces between separators,
      always at least one. */
  function Split(s: string, sep: char): (r: seq<string>)
    ensures |r| >= 1
    decreases |s|
  {
    if |s| == 0 then [""]
    else if s[0] == sep then [""] + Split(s[1..], sep)
    else
      var rest := Split(s[1..], sep);
      [[s[0]] + rest[0]] + rest[1..]
  }

  /** A separator-free prefix is glued onto the first piece. */
  lemma {:induction false} SplitPrefix(a: string, s: string, sep: char)
    requires sep !in a
    ensures Split(a + s, sep) == [a + Split(s, sep)[0]] + Split(s, sep)[1..]
    decreases |a|
  {
    if |a| == 0 {
      assert a + s == s;
      var r := Split(s, sep);
      assert a + r[0] == r[0];
      assert [r[0]] + r[1..] == r;
    } else {
      assert (a + s)[0] == a[0];
      assert (a + s)[1..] == a[1..] + s;
      SplitPrefix(a[1..], s, sep);
      assert [a[0]] + (a[1..] + Split(s, sep)[0]) == a + Split(s, sep)[0];
    }
  }

  /** Splitting a joined list gives the list back when no piece holds the separator. */
  lemma {:induction false} SplitJoin(parts: seq<string>, sep: char)
    requires |parts| >= 1
    requires forall i :: 0 <= i < |parts| ==> sep !in parts[i]
    ensures Split(Join(parts, [sep]), sep) == parts
    decreases |parts|
  {
    if |parts| == 1 {
      SplitPrefix(parts[0], "", sep);
      assert parts[0] + "" == parts[0];
    } else {
      var rest := Join(parts[1..], [sep]);
      SplitJoin(parts[1..], sep);
      assert Join(parts, [sep]) == parts[0] + ([sep] + rest);
      SplitPrefix(parts[0], [sep] + rest, sep);
      assert ([sep] + rest)[1..] == rest;
      assert Split([sep] + rest, sep) == [""] + parts[1..];
      assert parts[0] + "" == parts[0];
    }
  }

  /** ASCII lower-casing of one character. */
  function LowerChar(c: char): char {
    if 'A' <= c <= 'Z' then (c as int + 32) as char else c
  }

  /** `s.toLowerCase()` restricted to ASCII letters. */
  function ToLower(s: string): string {
    seq(|s|, i requires 0 <= i < |s| => LowerChar(s[i]))
  }

  predicate IsUpper(c: char) {
    'A' <= c <= 'Z'
  }

  /** Lower-casing keeps the length, leaves no upper-case ASCII letter, maps every
      upper-case letter to its lower-case partner, keeps every other character, and
      is idempotent. */
  lemma ToLowerSpec(s: string)
    ensures |ToLower(s)| == |s|
    ensures forall i :: 0 <= i < |s| ==> !IsUpper(ToLower(s)[i])
    ensures forall i :: 0 <= i < |s| && IsUpper(s[i]) ==> ToLower(s)[i] as int == s[i] as int + 32
    ensures forall i :: 0 <= i < |s| && !IsUpper(s[i]) ==> ToLower(s)[i] == s[i]
    ensures ToLower(ToLower(s)) == ToLower(s)
  {
  }
}
