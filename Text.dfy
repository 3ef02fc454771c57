/** String operations of java.lang.String that the ETL relies on, restated
    over `seq<char>`: ASCII case mapping, substring search, `trim`, literal
    single-character `replace`, the single-character fast path of `split`,
    and `compareTo`. */
module Text {

  // ---------------------------------------------------------------------
  // Case mapping (ASCII letters only)
  // ---------------------------------------------------------------------

  function LowerChar(c: char): char {
    if 'A' <= c <= 'Z' then (c as int + 32) as char else c
  }

  function UpperChar(c: char): char {
    if 'a' <= c <= 'z' then (c as int - 32) as char else c
  }

  /** `String.toLowerCase`, restricted to the ASCII letters. */
  function Lower(s: string): (r: string)
    ensures |r| == |s|
    ensures forall i :: 0 <= i < |s| ==> r[i] == LowerChar(s[i])
  {
    seq(|s|, i requires 0 <= i < |s| => LowerChar(s[i]))
  }

  /** `String.toUpperCase`, restricted to the ASCII letters. */
  function Upper(s: string): (r: string)
    ensures |r| == |s|
    ensures forall i :: 0 <= i < |s| ==> r[i] == UpperChar(s[i])
  {
    seq(|s|, i requires 0 <= i < |s| => UpperChar(s[i]))
  }

  /** Lower-casing forgets any earlier upper-casing: matching on `Lower(s)`
      does not depend on the case the input was written in. */
  lemma LowerOfUpper(s: string)
    ensures Lower(Upper(s)) == Lower(s)
  {
    forall i | 0 <= i < |s|
      ensures Lower(Upper(s))[i] == Lower(s)[i]
    {
      var c := s[i];
      if 'a' <= c <= 'z' {
        assert UpperChar(c) as int == c as int - 32;
      } else if 'A' <= c <= 'Z' {
        assert UpperChar(c) == c;
      }
    }
  }

  /** Upper-casing forgets any earlier lower-casing. */
  lemma UpperOfLower(s: string)
    ensures Upper(Lower(s)) == Upper(s)
  {
    forall i | 0 <= i < |s|
      ensures Upper(Lower(s))[i] == Upper(s)[i]
    {
      var c := s[i];
      if 'A' <= c <= 'Z' {
        assert LowerChar(c) as int == c as int + 32;
      } else if 'a' <= c <= 'z' {
        assert LowerChar(c) == c;
      }
    }
  }

  // ---------------------------------------------------------------------
  // Substring search (`String.contains`)
  // ---------------------------------------------------------------------

  /** `k` occurs in `s` starting at position `i`. */
  predicate OccursAt(s: string, k: string, i: int) {
    0 <= i && i + |k| <= |s| && s[i..i + |k|] == k
  }

  /** `s.contains(k)`. */
  function Contains(s: string, k: string): (r: bool)
    ensures r <==> exists i :: OccursAt(s, k, i)
    decreases |s|
  {
    if |k| > |s| then
      assert forall i :: !OccursAt(s, k, i);
      false
    else if s[..|k|] == k then
      assert OccursAt(s, k, 0);
      true
    else
      var r := Contains(s[1..], k);
      assert forall i :: OccursAt(s[1..], k, i) ==> OccursAt(s, k, i + 1) by {
        forall i | OccursAt(s[1..], k, i) ensures OccursAt(s, k, i + 1) {
          assert s[1..][i..i + |k|] == s[i + 1..i + 1 + |k|];
        }
      }
      assert forall i :: OccursAt(s, k, i) ==> i > 0 && OccursAt(s[1..], k, i - 1) by {
        forall i | OccursAt(s, k, i) ensures i > 0 && OccursAt(s[1..], k, i - 1) {
          assert s[1..][i - 1..i - 1 + |k|] == s[i..i + |k|];
        }
      }
      r
  }

  /** An occurrence of `k` inside an occurrence of `big` is an occurrence of `k`. */
  lemma ContainsTransitive(s: string, big: string, k: string, j: nat)
    requires Contains(s, big)
    requires OccursAt(big, k, j)
    ensures Contains(s, k)
  {
    var i :| OccursAt(s, big, i);
    var w := s[i..i + |big|];
    assert w == big;
    var inner, outer := w[j..j + |k|], s[i + j..i + j + |k|];
    forall p | 0 <= p < |k| ensures inner[p] == outer[p] {
      assert w[j + p] == s[i + j + p];
    }
    assert inner == outer;
    assert big[j..j + |k|] == k;
    assert OccursAt(s, k, i + j);
  }

  // ---------------------------------------------------------------------
  // `String.trim`: strips every leading and trailing character <= U+0020
  // ---------------------------------------------------------------------

  function TrimStart(s: string): string
  {
    if |s| > 0 && s[0] <= ' ' then TrimStart(s[1..]) else s
  }

  function TrimEnd(s: string): string
  {
    if |s| > 0 && s[|s| - 1] <= ' ' then TrimEnd(s[..|s| - 1]) else s
  }

  /** `s.trim()`. */
  function Trim(s: string): string
  {
    TrimEnd(TrimStart(s))
  }

  /** `TrimStart(s)` is what is left of `s` after its leading blanks. */
  lemma {:induction false} TrimStartSlice(s: string)
    ensures |TrimStart(s)| <= |s| && TrimStart(s) == s[|s| - |TrimStart(s)|..]
    ensures forall i :: 0 <= i < |s| - |TrimStart(s)| ==> s[i] <= ' '
    ensures TrimStart(s) == [] || TrimStart(s)[0] > ' '
  {
    if |s| > 0 && s[0] <= ' ' {
      TrimStartSlice(s[1..]);
    }
  }

  /** `TrimEnd(s)` is what is left of `s` before its trailing blanks. */
  lemma {:induction false} TrimEndSlice(s: string)
    ensures |TrimEnd(s)| <= |s| && TrimEnd(s) == s[..|TrimEnd(s)|]
    ensures forall i :: |TrimEnd(s)| <= i < |s| ==> s[i] <= ' '
    ensures TrimEnd(s) == [] || TrimEnd(s)[|TrimEnd(s)| - 1] > ' '
  {
    if |s| > 0 && s[|s| - 1] <= ' ' {
      TrimEndSlice(s[..|s| - 1]);
    }
  }

  /** The trimmed string has no blank margins and is a slice of the input
      whose cut-off margins were blank. */
  lemma TrimMargins(s: string)
    ensures Trim(s) == [] || (Trim(s)[0] > ' ' && Trim(s)[|Trim(s)| - 1] > ' ')
    ensures |Trim(s)| <= |s|
    ensures var a := |s| - |TrimStart(s)|;
      0 <= a && a + |Trim(s)| <= |s| && Trim(s) == s[a..a + |Trim(s)|] &&
      (forall k :: 0 <= k < a ==> s[k] <= ' ') &&
      (forall k :: a + |Trim(s)| <= k < |s| ==> s[k] <= ' ')
  {
    TrimStartSlice(s);
    var t := TrimStart(s);
    var a := |s| - |t|;
    TrimEndSlice(t);
    var u := TrimEnd(t);
    assert u == s[a..][..|u|] == s[a..a + |u|];
    forall k | a + |u| <= k < |s| ensures s[k] <= ' ' {
      assert s[k] == t[k - a];
    }
  }

  /** `trim` keeps every character above the blank. */
  lemma TrimKeeps(s: string, x: char)
    requires x in s && x > ' '
    ensures x in Trim(s)
  {
    TrimStartSlice(s);
    var t := TrimStart(s);
    var k :| 0 <= k < |s| && s[k] == x;
    assert s[k] == t[k - (|s| - |t|)];
    TrimEndSlice(t);
    var u := TrimEnd(t);
    var j := k - (|s| - |t|);
    assert t[j] == u[j];
  }

  /** A string without blank margins is left alone by `trim`. */
  lemma TrimNoMargins(s: string)
    requires s == [] || (s[0] > ' ' && s[|s| - 1] > ' ')
    ensures Trim(s) == s
  {
  }

  /** `trim` is idempotent. */
  lemma TrimIdempotent(s: string)
    ensures Trim(Trim(s)) == Trim(s)
  {
    TrimMargins(s);
    TrimNoMargins(Trim(s));
  }

  // ---------------------------------------------------------------------
  // Literal single-character `replace`
  // ---------------------------------------------------------------------

  /** `s.replace(String.valueOf(c), "")`: every `c` deleted. */
  function RemoveChar(s: string, c: char): (r: string)
    ensures c !in r
    ensures |r| <= |s|
    ensures c !in s ==> r == s
  {
    if s == [] then []
    else if s[0] == c then RemoveChar(s[1..], c)
    else
      assert s == [s[0]] + s[1..];
      [s[0]] + RemoveChar(s[1..], c)
  }

  /** Deleting a character keeps the other characters. */
  lemma {:induction false} RemoveCharKeeps(s: string, c: char, x: char)
    requires x != c
    ensures x in RemoveChar(s, c) <==> x in s
  {
    if s != [] {
      RemoveCharKeeps(s[1..], c, x);
      assert s == [s[0]] + s[1..];
    }
  }

  /** Deleting `c` from `a + [x] + b` deletes it from each piece. */
  lemma RemoveAround(a: string, x: char, b: string, c: char)
    ensures RemoveChar(a + [x] + b, c) == RemoveChar(a, c) + RemoveChar([x], c) + RemoveChar(b, c)
    ensures RemoveChar([x], c) == if x == c then [] else [x]
  {
    assert RemoveChar(a + [x], c) == RemoveChar(a, c) + RemoveChar([x], c) by {
      RemoveCharAppend(a, [x], c);
    }
    RemoveCharAppend(a + [x], b, c);
    assert [x][0] == x && [x][1..] == [];
  }

  /** The one `c` between two strings without `c` is all that is deleted. */
  lemma RemoveOne(a: string, b: string, c: char)
    requires c !in a && c !in b
    ensures RemoveChar(a + [c] + b, c) == a + b
  {
    RemoveAround(a, c, b, c);
  }

  /** A string whose only candidate for `c` is `x != c` loses nothing. */
  lemma RemoveNone(a: string, x: char, b: string, c: char)
    requires c !in a && c !in b && x != c
    ensures RemoveChar(a + [x] + b, c) == a + [x] + b
  {
    RemoveAround(a, x, b, c);
  }

  lemma {:induction false} RemoveCharAppend(a: string, b: string, c: char)
    ensures RemoveChar(a + b, c) == RemoveChar(a, c) + RemoveChar(b, c)
    decreases |a|
  {
    if a != [] {
      assert (a + b)[1..] == a[1..] + b;
      RemoveCharAppend(a[1..], b, c);
    } else {
      assert a + b == b;
    }
  }

  /** `s.replace(a, b)` for single characters `a` and `b`. */
  function ReplaceChar(s: string, a: char, b: char): (r: string)
    ensures |r| == |s|
    ensures forall i :: 0 <= i < |s| ==> r[i] == if s[i] == a then b else s[i]
  {
    seq(|s|, i requires 0 <= i < |s| => if s[i] == a then b else s[i])
  }

  /** Regrouping a concatenation of four strings. */
  lemma Regroup(a: string, b: string, c: string, d: string)
    ensures a + b + c + d == a + (b + c + d)
  {
  }

  /** Replacing `a` by `b` leaves no `a` behind and keeps every other
      character except `b`. */
  lemma ReplaceCharKeeps(s: string, a: char, b: char, x: char)
    requires a != b
    ensures a !in ReplaceChar(s, a, b)
    ensures x != a && x != b ==> (x in ReplaceChar(s, a, b) <==> x in s)
  {
    var r := ReplaceChar(s, a, b);
    if x != a && x != b && x in r {
      var k :| 0 <= k < |r| && r[k] == x;
      assert s[k] == x;
    }
    if x != a && x != b && x in s {
      var k :| 0 <= k < |s| && s[k] == x;
      assert r[k] == x;
    }
  }

  lemma ReplaceCharAppend(x: string, y: string, a: char, b: char)
    ensures ReplaceChar(x + y, a, b) == ReplaceChar(x, a, b) + ReplaceChar(y, a, b)
  {
  }

  lemma ReplaceCharAbsent(s: string, a: char, b: char)
    requires a !in s
    ensures ReplaceChar(s, a, b) == s
  {
  }

  // ---------------------------------------------------------------------
  // Splitting on one character, and joining
  // ---------------------------------------------------------------------

  /** The fields of `s` between occurrences of `d`, none of them dropped. */
  function SplitAll(s: string, d: char): (r: seq<string>)
    ensures |r| >= 1
    ensures forall k :: 0 <= k < |r| ==> d !in r[k]
    ensures Join(r, d) == s
    ensures d !in s ==> r == [s]
  {
    if s == [] then [""]
    else if s[0] == d then
      var t := SplitAll(s[1..], d);
      assert s == [d] + s[1..];
      [""] + t
    else
      var t := SplitAll(s[1..], d);
      JoinCons(s[0], t, d);
      assert s == [s[0]] + s[1..];
      [[s[0]] + t[0]] + t[1..]
  }

  /** Fields separated by `d` (`String.join`). */
  function Join(fs: seq<string>, d: char): string
  {
    if |fs| == 0 then ""
    else if |fs| == 1 then fs[0]
    else fs[0] + [d] + Join(fs[1..], d)
  }

  /** A character in no field and other than the separator is not in the join. */
  lemma {:induction false} JoinLacks(fs: seq<string>, d: char, x: char)
    requires x != d
    requires forall k :: 0 <= k < |fs| ==> x !in fs[k]
    ensures x !in Join(fs, d)
    decreases |fs|
  {
    if |fs| > 1 {
      JoinLacks(fs[1..], d, x);
      assert x !in fs[0];
    }
  }

  lemma JoinCons(c: char, t: seq<string>, d: char)
    requires |t| >= 1
    ensures Join([[c] + t[0]] + t[1..], d) == [c] + Join(t, d)
  {
    var u := [[c] + t[0]] + t[1..];
    assert u[1..] == t[1..];
  }

  lemma {:induction false} SplitAllPrefix(a: string, d: char, rest: string)
    requires d !in a
    ensures SplitAll(a + [d] + rest, d) == [a] + SplitAll(rest, d)
    decreases |a|
  {
    if a == [] {
      assert a + [d] + rest == [d] + rest;
      assert ([d] + rest)[1..] == rest;
    } else {
      var s := a + [d] + rest;
      assert s[0] == a[0];
      assert s[1..] == a[1..] + [d] + rest;
      SplitAllPrefix(a[1..], d, rest);
      assert [a[0]] + a[1..] == a;
    }
  }

  /** Splitting undoes joining fields that do not contain the separator. */
  lemma {:induction false} SplitJoin(fs: seq<string>, d: char)
    requires |fs| >= 1
    requires forall k :: 0 <= k < |fs| ==> d !in fs[k]
    ensures SplitAll(Join(fs, d), d) == fs
    decreases |fs|
  {
    if |fs| > 1 {
      SplitJoin(fs[1..], d);
      SplitAllPrefix(fs[0], d, Join(fs[1..], d));
      assert [fs[0]] + fs[1..] == fs;
    }
  }

  /** Drops the empty strings at the end of `fs`. */
  function DropTrailingEmpty(fs: seq<string>): (r: seq<string>)
    ensures |r| <= |fs| && r == fs[..|r|]
    ensures forall k :: |r| <= k < |fs| ==> fs[k] == ""
    ensures r == [] || r[|r| - 1] != ""
  {
    if |fs| > 0 && fs[|fs| - 1] == "" then DropTrailingEmpty(fs[..|fs| - 1]) else fs
  }

  /** `s.split(String.valueOf(d))` for a separator that is not a regular
      expression metacharacter: when `d` does not occur the whole string is
      the only field; otherwise trailing empty fields are removed. */
  function JavaSplit(s: string, d: char): seq<string>
  {
    if d !in s then [s] else DropTrailingEmpty(SplitAll(s, d))
  }

  /** The length test `split(..).length >= n` (for `n >= 2`) holds exactly
      when some field at index `n - 1` or later is non-empty. */
  lemma JavaSplitLength(s: string, d: char, n: nat)
    requires n >= 2
    ensures |JavaSplit(s, d)| >= n <==>
      exists k :: n - 1 <= k < |SplitAll(s, d)| && SplitAll(s, d)[k] != ""
  {
    var fs := SplitAll(s, d);
    if d in s {
      var r := DropTrailingEmpty(fs);
      if |r| >= n {
        assert r[|r| - 1] == fs[|r| - 1];
      }
      if k :| n - 1 <= k < |fs| && fs[k] != "" {
        assert k < |r|;
      }
    }
  }

  /** On a string with `m` fields of which the last is not empty, the Java
      split returns all `m` fields. */
  lemma JavaSplitJoin(fs: seq<string>, d: char)
    requires |fs| >= 2
    requires forall k :: 0 <= k < |fs| ==> d !in fs[k]
    requires fs[|fs| - 1] != ""
    ensures JavaSplit(Join(fs, d), d) == fs
  {
    SplitJoin(fs, d);
    var s := Join(fs, d);
    assert s == fs[0] + [d] + Join(fs[1..], d);
    assert s[|fs[0]|] == d;
  }

  // ---------------------------------------------------------------------
  // `String.compareTo`: lexicographic order on character codes
  // ---------------------------------------------------------------------

  /** `a.compareTo(b)`: the difference of the first differing characters,
      or the difference of the lengths when one is a prefix of the other. */
  function CompareTo(a: string, b: string): int
  {
    if |a| == 0 || |b| == 0 then |a| - |b|
    else if a[0] != b[0] then a[0] as int - b[0] as int
    else CompareTo(a[1..], b[1..])
  }

  lemma {:induction false} CompareToZero(a: string, b: string)
    ensures CompareTo(a, b) == 0 <==> a == b
  {
    if |a| > 0 && |b| > 0 && a[0] == b[0] {
      CompareToZero(a[1..], b[1..]);
      assert a == [a[0]] + a[1..] && b == [b[0]] + b[1..];
    }
  }

  lemma {:induction false} CompareToAntisymmetric(a: string, b: string)
    ensures CompareTo(a, b) == -CompareTo(b, a)
  {
    if |a| > 0 && |b| > 0 && a[0] == b[0] {
      CompareToAntisymmetric(a[1..], b[1..]);
    }
  }

  lemma {:induction false} CompareToTransitive(a: string, b: string, c: string)
    requires CompareTo(a, b) < 0 && CompareTo(b, c) < 0
    ensures CompareTo(a, c) < 0
  {
    if |a| > 0 && |b| > 0 && |c| > 0 && a[0] == b[0] && b[0] == c[0] {
      CompareToTransitive(a[1..], b[1..], c[1..]);
    }
  }
}
