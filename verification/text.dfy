/** The JavaScript string operations the tracker relies on, restricted to what
    the model needs: ASCII lower-casing, substring search and the code-unit
    order used by `Array.prototype.sort()` on strings. */
module Text {

  /** An ASCII capital letter. */
  predicate IsUpper(c: char) {
    'A' <= c <= 'Z'
  }

  /** `c.toLowerCase()` on the ASCII range: capitals move down by 32, every
      other character is kept. */
  function LowerChar(c: char): (r: char)
    ensures !IsUpper(r)
    ensures IsUpper(c) ==> r as int == c as int + 32
    ensures !IsUpper(c) ==> r == c
  {
    if IsUpper(c) then (c as int + 32) as char else c
  }

  /** No ASCII capital letter occurs in `s`. */
  predicate IsLower(s: string) {
    forall i :: 0 <= i < |s| ==> !IsUpper(s[i])
  }

  /** `s.toLowerCase()`, ASCII only. */
  function ToLower(s: string): string
    decreases |s|
  {
    if |s| == 0 then "" else [LowerChar(s[0])] + ToLower(s[1..])
  }

  /** Lower-casing works character by character: it keeps the length, lowers
      each ASCII capital by 32, keeps every other character, and leaves no
      capital behind. */
  lemma {:induction false} ToLowerCharwise(s: string)
    ensures |ToLower(s)| == |s|
    ensures IsLower(ToLower(s))
    ensures forall i :: 0 <= i < |s| && IsUpper(s[i]) ==> ToLower(s)[i] as int == s[i] as int + 32
    ensures forall i :: 0 <= i < |s| && !IsUpper(s[i]) ==> ToLower(s)[i] == s[i]
    decreases |s|
  {
    if |s| > 0 {
      ToLowerCharwise(s[1..]);
      var r := ToLower(s);
      assert r == [LowerChar(s[0])] + ToLower(s[1..]);
      forall i | 1 <= i < |s|
        ensures r[i] == ToLower(s[1..])[i - 1] && s[i] == s[1..][i - 1]
      {
      }
    }
  }

  /** Lower-casing twice is lower-casing once. */
  lemma {:induction false} ToLowerIdempotent(s: string)
    ensures ToLower(ToLower(s)) == ToLower(s)
    decreases |s|
  {
    if |s| > 0 {
      ToLowerIdempotent(s[1..]);
      var r := ToLower(s);
      assert r == [LowerChar(s[0])] + ToLower(s[1..]);
      assert r[1..] == ToLower(s[1..]);
      assert ToLower(r) == [LowerChar(r[0])] + ToLower(r[1..]);
    }
  }

  /** `t` occurs in `s` starting at position `i`. */
  predicate OccursAt(s: string, t: string, i: int) {
    0 <= i && i + |t| <= |s| && s[i..i + |t|] == t
  }

  /** Some position of `s` starts an occurrence of `t`. */
  ghost predicate Occurs(s: string, t: string) {
    exists i :: OccursAt(s, t, i)
  }

  /** `s.includes(t)`: `t` is a prefix of `s` or occurs in its tail. */
  predicate Includes(s: string, t: string)
    decreases |s|
  {
    |t| <= |s| && (s[..|t|] == t || (|s| > 0 && Includes(s[1..], t)))
  }

  /** `Includes` holds exactly when some position of `s` starts an occurrence of `t`. */
  lemma {:induction false} IncludesFindsOccurrence(s: string, t: string)
    ensures Includes(s, t) <==> exists i :: OccursAt(s, t, i)
    decreases |s|
  {
    if |t| <= |s| && |s| > 0 {
      IncludesFindsOccurrence(s[1..], t);
      forall i | OccursAt(s[1..], t, i)
        ensures OccursAt(s, t, i + 1)
      {
        assert s[i + 1..i + 1 + |t|] == s[1..][i..i + |t|];
      }
      forall i | OccursAt(s, t, i) && i > 0
        ensures OccursAt(s[1..], t, i - 1)
      {
        assert s[i..i + |t|] == s[1..][i - 1..i - 1 + |t|];
      }
      if Includes(s, t) && s[..|t|] == t {
        assert OccursAt(s, t, 0);
      }
    } else if |t| <= |s| {
      assert OccursAt(s, t, 0);
    }
  }

  /** The empty search text occurs in every string. */
  lemma IncludesEmpty(s: string)
    ensures Includes(s, "")
  {
    assert s[..0] == "";
  }

  /** `a <= b` in the order JavaScript's default `sort()` uses for strings:
      compare character by character, a proper prefix coming first. */
  predicate LexLe(a: string, b: string)
    decreases |a|
  {
    || |a| == 0
    || (&& |b| > 0
        && (|| a[0] < b[0]
            || (a[0] == b[0] && LexLe(a[1..], b[1..]))))
  }

  /** Any two strings are comparable. */
  lemma {:induction false} LexLeTotal(a: string, b: string)
    ensures LexLe(a, b) || LexLe(b, a)
    decreases |a|
  {
    if |a| > 0 && |b| > 0 && a[0] == b[0] {
      LexLeTotal(a[1..], b[1..]);
    }
  }

  /** The order is transitive. */
  lemma {:induction false} LexLeTransitive(a: string, b: string, c: string)
    requires LexLe(a, b) && LexLe(b, c)
    ensures LexLe(a, c)
    decreases |a|
  {
    if |a| > 0 && a[0] == b[0] && b[0] == c[0] {
      LexLeTransitive(a[1..], b[1..], c[1..]);
    }
  }

  /** `ss` is in ascending order. */
  ghost predicate Sorted(ss: seq<string>) {
    forall i, j :: 0 <= i < j < |ss| ==> LexLe(ss[i], ss[j])
  }

  /** Inserts `x` into an ascending sequence, before the first element it does
      not exceed. */
  function Insert(x: string, ss: seq<string>): (r: seq<string>)
    requires Sorted(ss)
    ensures Sorted(r)
    ensures multiset(r) == multiset(ss) + multiset{x}
    decreases |ss|
  {
    if |ss| == 0 then [x]
    else if LexLe(x, ss[0]) then
      assert forall j :: 0 < j < |ss| ==> LexLe(x, ss[j]) by {
        forall j | 0 < j < |ss| ensures LexLe(x, ss[j]) {
          LexLeTransitive(x, ss[0], ss[j]);
        }
      }
      [x] + ss
    else
      var rest := Insert(x, ss[1..]);
      assert ss == [ss[0]] + ss[1..];
      assert LexLe(ss[0], x) by { LexLeTotal(x, ss[0]); }
      assert forall j :: 0 <= j < |rest| ==> LexLe(ss[0], rest[j]) by {
        forall j | 0 <= j < |rest| ensures LexLe(ss[0], rest[j]) {
          assert rest[j] in multiset(rest);
          if rest[j] != x {
            assert rest[j] in ss[1..];
          }
        }
      }
      [ss[0]] + rest
  }

  /** `[...ss].sort()` on strings: an ascending permutation of `ss`. */
  function Sort(ss: seq<string>): (r: seq<string>)
    ensures Sorted(r)
    ensures multiset(r) == multiset(ss)
    decreases |ss|
  {
    if |ss| == 0 then []
    else
      assert ss == [ss[0]] + ss[1..];
      Insert(ss[0], Sort(ss[1..]))
  }
}
