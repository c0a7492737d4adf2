/**
 * The string operations both editors use on phone numbers: Python's
 * `str.strip()`, `', '.join(...)` and the truthiness test `p and p.strip()`.
 */
module Text {
  import opened Wrappers

  /** Python's `str.isspace()` for one character: the Unicode whitespace characters. */
  predicate IsSpace(c: char) {
    || ('\t' <= c <= '\r')
    || ('\U{1C}' <= c <= '\U{1F}')
    || c == ' '
    || c == '\U{85}'
    || c == '\U{A0}'
    || c == '\U{1680}'
    || ('\U{2000}' <= c <= '\U{200A}')
    || c == '\U{2028}'
    || c == '\U{2029}'
    || c == '\U{202F}'
    || c == '\U{205F}'
    || c == '\U{3000}'
  }

  /** `s` with its leading whitespace removed. */
  function TrimStart(s: string): (r: string)
    ensures |r| <= |s| && r == s[|s| - |r|..]
    ensures forall i :: 0 <= i < |s| - |r| ==> IsSpace(s[i])
    ensures r != [] ==> !IsSpace(r[0])
  {
    if s != [] && IsSpace(s[0]) then TrimStart(s[1..]) else s
  }

  /** `s` with its trailing whitespace removed. */
  function TrimEnd(s: string): (r: string)
    ensures |r| <= |s| && r == s[..|r|]
    ensures forall i :: |r| <= i < |s| ==> IsSpace(s[i])
    ensures r != [] ==> !IsSpace(r[|r| - 1])
  {
    if s != [] && IsSpace(s[|s| - 1]) then TrimEnd(s[..|s| - 1]) else s
  }

  /** Python's `s.strip()`. */
  function Strip(s: string): string {
    TrimEnd(TrimStart(s))
  }

  /** TrimStart(s) starts at the first non-whitespace character. */
  lemma {:induction false} TrimStartAt(s: string, i: nat)
    requires i <= |s|
    requires forall k :: 0 <= k < i ==> IsSpace(s[k])
    requires i < |s| ==> !IsSpace(s[i])
    ensures TrimStart(s) == s[i..]
  {
    if i > 0 {
      var rest := s[1..];
      forall k | 0 <= k < i - 1 ensures IsSpace(rest[k]) {
        assert rest[k] == s[k + 1];
      }
      assert i - 1 < |rest| ==> rest[i - 1] == s[i];
      TrimStartAt(rest, i - 1);
      assert rest[i - 1..] == s[i..];
    }
  }

  /** Trimming the end of s[i..] stops after the last non-whitespace character, s[j - 1]. */
  lemma {:induction false} TrimEndAt(s: string, i: nat, j: nat)
    requires i <= j <= |s|
    requires forall k :: j <= k < |s| ==> IsSpace(s[k])
    requires i < j ==> !IsSpace(s[j - 1])
    ensures TrimEnd(s[i..]) == s[i..j]
    decreases |s| - j
  {
    if j < |s| {
      var init := s[..|s| - 1];
      assert s[i..][..|s| - 1 - i] == init[i..];
      forall k | j <= k < |init| ensures IsSpace(init[k]) {
        assert init[k] == s[k];
      }
      assert i < j ==> init[j - 1] == s[j - 1];
      TrimEndAt(init, i, j);
      assert init[i..j] == s[i..j];
    } else {
      assert s[i..] == s[i..j];
    }
  }

  /**
   * Strip(s) is the one slice s[i..j] that has only whitespace outside it and
   * no whitespace at either of its ends.
   */
  lemma StripIsCore(s: string, i: nat, j: nat)
    requires i <= j <= |s|
    requires forall k :: 0 <= k < i ==> IsSpace(s[k])
    requires forall k :: j <= k < |s| ==> IsSpace(s[k])
    requires i < j ==> !IsSpace(s[i]) && !IsSpace(s[j - 1])
    ensures Strip(s) == s[i..j]
  {
    if i < j {
      TrimStartAt(s, i);
      TrimEndAt(s, i, j);
    } else {
      TrimStartAt(s, |s|);
    }
  }

  /** A string strips to nothing exactly when it is all whitespace. */
  lemma StripEmptyIffBlank(s: string)
    ensures Strip(s) == "" <==> forall k :: 0 <= k < |s| ==> IsSpace(s[k])
  {
    var t := TrimStart(s);
    if Strip(s) == "" {
      assert t == [];
    } else {
      var u := Strip(s);
      assert u[0] == t[0] == s[|s| - |t|];
    }
  }

  /** Stripping twice is stripping once. */
  lemma StripIdempotent(s: string)
    ensures Strip(Strip(s)) == Strip(s)
  {
    var u := Strip(s);
    if u == [] {
      StripIsCore(u, 0, 0);
    } else {
      StripIsCore(u, 0, |u|);
    }
  }

  /** Python truthiness of `p and p.strip()`: neither None nor blank. */
  predicate IsFilled(p: Option<string>) {
    p.Some? && Strip(p.value) != ""
  }

  /** The filled values of `ps`, as they are, in order: `[p for p in ps if p and p.strip()]`. */
  function FilledValues(ps: seq<Option<string>>): (r: seq<string>)
    ensures |r| <= |ps|
    ensures forall s :: s in r ==> Strip(s) != ""
  {
    if ps == [] then []
    else if IsFilled(ps[0]) then [ps[0].value] + FilledValues(ps[1..])
    else FilledValues(ps[1..])
  }

  /** The filled values of `ps`, stripped, in order: `[p.strip() for p in ps if p and p.strip()]`. */
  function StrippedValues(ps: seq<Option<string>>): seq<string> {
    if ps == [] then []
    else if IsFilled(ps[0]) then [Strip(ps[0].value)] + StrippedValues(ps[1..])
    else StrippedValues(ps[1..])
  }

  /** The stripped values are the filled values, position by position, stripped. */
  lemma {:induction false} StrippedValuesPointwise(ps: seq<Option<string>>)
    ensures |StrippedValues(ps)| == |FilledValues(ps)|
    ensures forall k :: 0 <= k < |StrippedValues(ps)| ==> StrippedValues(ps)[k] == Strip(FilledValues(ps)[k])
  {
    if ps != [] {
      var rest := ps[1..];
      StrippedValuesPointwise(rest);
      if IsFilled(ps[0]) {
        var r := StrippedValues(ps);
        var f := FilledValues(ps);
        assert r == [Strip(ps[0].value)] + StrippedValues(rest);
        assert f == [ps[0].value] + FilledValues(rest);
        forall k | 0 <= k < |r| ensures r[k] == Strip(f[k]) {
          if k > 0 {
            assert r[k] == StrippedValues(rest)[k - 1];
            assert f[k] == FilledValues(rest)[k - 1];
          }
        }
      }
    }
  }

  /** No value survives the filter exactly when no value is filled. */
  lemma {:induction false} FilledValuesEmptyIff(ps: seq<Option<string>>)
    ensures FilledValues(ps) == [] <==> forall k :: 0 <= k < |ps| ==> !IsFilled(ps[k])
  {
    if ps != [] {
      FilledValuesEmptyIff(ps[1..]);
      assert forall k :: 1 <= k < |ps| ==> ps[k] == ps[1..][k - 1];
    }
  }

  /** Nothing survives the filter from `[p] + rest` exactly when `p` is not filled and nothing survives from `rest`. */
  lemma FilledValuesEmptyCons(p: Option<string>, rest: seq<Option<string>>)
    ensures FilledValues([p] + rest) == [] <==> !IsFilled(p) && FilledValues(rest) == []
  {
    assert ([p] + rest)[1..] == rest;
  }

  /** A value is kept exactly when it is the value of a filled entry. */
  lemma {:induction false} FilledValuesMembers(ps: seq<Option<string>>)
    ensures forall s :: s in FilledValues(ps) ==> exists i :: 0 <= i < |ps| && IsFilled(ps[i]) && ps[i].value == s
    ensures forall i :: 0 <= i < |ps| && IsFilled(ps[i]) ==> ps[i].value in FilledValues(ps)
  {
    if ps != [] {
      var rest := ps[1..];
      FilledValuesMembers(rest);
      forall s | s in FilledValues(ps) ensures exists i :: 0 <= i < |ps| && IsFilled(ps[i]) && ps[i].value == s {
        if s in FilledValues(rest) {
          var i :| 0 <= i < |rest| && IsFilled(rest[i]) && rest[i].value == s;
          assert ps[i + 1] == rest[i];
        }
      }
      forall i | 0 <= i < |ps| && IsFilled(ps[i]) ensures ps[i].value in FilledValues(ps) {
        if i > 0 {
          assert rest[i - 1] == ps[i];
        }
      }
    }
  }

  /** Filtering keeps the input order: the kept values of `a + b` are those of `a` followed by those of `b`. */
  lemma {:induction false} FilledValuesAppend(a: seq<Option<string>>, b: seq<Option<string>>)
    ensures FilledValues(a + b) == FilledValues(a) + FilledValues(b)
  {
    if a == [] {
      assert a + b == b;
    } else {
      assert (a + b)[0] == a[0];
      assert (a + b)[1..] == a[1..] + b;
      FilledValuesAppend(a[1..], b);
    }
  }

  /** What one entry contributes to the stripped list: its value stripped when it is filled, nothing otherwise. */
  function StrippedIfFilled(p: Option<string>): seq<string> {
    if IsFilled(p) then [Strip(p.value)] else []
  }

  /** The stripped list of `[p] + rest` is what `p` contributes followed by the stripped list of `rest`. */
  lemma StrippedValuesCons(p: Option<string>, rest: seq<Option<string>>)
    ensures StrippedValues([p] + rest) == StrippedIfFilled(p) + StrippedValues(rest)
  {
    assert ([p] + rest)[0] == p;
    assert ([p] + rest)[1..] == rest;
  }

  /** Stripping keeps the input order: the stripped list of `a + b` is that of `a` followed by that of `b`. */
  lemma {:induction false} StrippedValuesAppend(a: seq<Option<string>>, b: seq<Option<string>>)
    ensures StrippedValues(a + b) == StrippedValues(a) + StrippedValues(b)
  {
    if a == [] {
      assert a + b == b;
    } else {
      assert (a + b)[0] == a[0];
      assert (a + b)[1..] == a[1..] + b;
      StrippedValuesAppend(a[1..], b);
    }
  }

  /** Stripping a four-entry chain keeps the entries' order. */
  lemma StrippedValuesFour(p1: Option<string>, p2: Option<string>, p3: Option<string>, p4: Option<string>)
    ensures StrippedValues([p1] + ([p2] + ([p3] + ([p4] + [])))) ==
      StrippedIfFilled(p1) + (StrippedIfFilled(p2) + (StrippedIfFilled(p3) + StrippedIfFilled(p4)))
  {
    var s4 := StrippedValues([p4] + []);
    StrippedValuesCons(p4, []);
    assert s4 == StrippedIfFilled(p4);
    var s3 := StrippedValues([p3] + ([p4] + []));
    StrippedValuesCons(p3, [p4] + []);
    assert s3 == StrippedIfFilled(p3) + s4;
    var s2 := StrippedValues([p2] + ([p3] + ([p4] + [])));
    StrippedValuesCons(p2, [p3] + ([p4] + []));
    assert s2 == StrippedIfFilled(p2) + s3;
    StrippedValuesCons(p1, [p2] + ([p3] + ([p4] + [])));
  }

  /** Every entry of the stripped list is the stripped value of some filled entry. */
  lemma {:induction false} StrippedValuesSources(ps: seq<Option<string>>)
    ensures forall s :: s in StrippedValues(ps) ==> exists i :: 0 <= i < |ps| && IsFilled(ps[i]) && Strip(ps[i].value) == s
  {
    if ps != [] {
      var rest := ps[1..];
      StrippedValuesSources(rest);
      assert ps == [ps[0]] + rest;
      StrippedValuesCons(ps[0], rest);
      forall s | s in StrippedValues(ps) ensures exists i :: 0 <= i < |ps| && IsFilled(ps[i]) && Strip(ps[i].value) == s {
        if s in StrippedValues(rest) {
          var i :| 0 <= i < |rest| && IsFilled(rest[i]) && Strip(rest[i].value) == s;
          assert ps[i + 1] == rest[i];
        } else {
          assert s in StrippedIfFilled(ps[0]);
        }
      }
    }
  }

  /** Every filled entry appears, stripped, in the stripped list. */
  lemma StrippedValuesMembers(ps: seq<Option<string>>)
    ensures forall i :: 0 <= i < |ps| && IsFilled(ps[i]) ==> Strip(ps[i].value) in StrippedValues(ps)
  {
    FilledValuesMembers(ps);
    StrippedValuesPointwise(ps);
    forall i | 0 <= i < |ps| && IsFilled(ps[i]) ensures Strip(ps[i].value) in StrippedValues(ps) {
      var f := FilledValues(ps);
      var k :| 0 <= k < |f| && f[k] == ps[i].value;
      assert StrippedValues(ps)[k] == Strip(f[k]);
    }
  }

  /** When every present value is already stripped, stripping the filled values changes nothing. */
  lemma {:induction false} StrippedValuesOfStripped(ps: seq<Option<string>>)
    requires forall k :: 0 <= k < |ps| && ps[k].Some? ==> Strip(ps[k].value) == ps[k].value
    ensures StrippedValues(ps) == FilledValues(ps)
  {
    if ps != [] {
      StrippedValuesOfStripped(ps[1..]);
    }
  }

  /** A non-empty stripped string neither starts nor ends with whitespace. */
  lemma StripEdges(s: string)
    requires Strip(s) != ""
    ensures !IsSpace(Strip(s)[0]) && !IsSpace(Strip(s)[|Strip(s)| - 1])
  {
    var t := TrimStart(s);
    assert Strip(s)[0] == t[0];
  }

  /** Python's `sep.join(parts)`. */
  function Join(sep: string, parts: seq<string>): (r: string)
    ensures parts == [] ==> r == ""
    ensures parts != [] ==> parts[0] <= r
    ensures parts != [] ==> |parts[|parts| - 1]| <= |r| && r[|r| - |parts[|parts| - 1]|..] == parts[|parts| - 1]
  {
    if |parts| == 0 then ""
    else if |parts| == 1 then parts[0]
    else parts[0] + sep + Join(sep, parts[1..])
  }

  /** Joining non-empty parts gives the empty string exactly when there are no parts. */
  lemma JoinEmptyIff(sep: string, parts: seq<string>)
    requires forall k :: 0 <= k < |parts| ==> parts[k] != ""
    ensures Join(sep, parts) == "" <==> parts == []
  {
    if parts != [] {
      assert parts[0] <= Join(sep, parts);
    }
  }

  /** A string with no whitespace at either end strips to itself. */
  lemma StripOfTrimmed(s: string)
    requires s != "" ==> !IsSpace(s[0]) && !IsSpace(s[|s| - 1])
    ensures Strip(s) == s
  {
    StripIsCore(s, 0, |s|);
  }

  /** A joined string starts with the first character of the first part and ends with the last character of the last. */
  lemma JoinEnds(sep: string, parts: seq<string>)
    requires parts != [] && parts[0] != "" && parts[|parts| - 1] != ""
    ensures Join(sep, parts) != ""
    ensures Join(sep, parts)[0] == parts[0][0]
    ensures Join(sep, parts)[|Join(sep, parts)| - 1] == parts[|parts| - 1][|parts[|parts| - 1]| - 1]
  {
    var r := Join(sep, parts);
    var last := parts[|parts| - 1];
    assert r[|r| - |last|..] == last;
    assert r[|r| - 1] == r[|r| - |last|..][|last| - 1];
  }

  /** Joining non-empty parts that neither start nor end with whitespace gives a stripped string. */
  lemma JoinOfStripped(sep: string, parts: seq<string>)
    requires forall k :: 0 <= k < |parts| ==> parts[k] != "" && !IsSpace(parts[k][0]) && !IsSpace(parts[k][|parts[k]| - 1])
    ensures Strip(Join(sep, parts)) == Join(sep, parts)
  {
    if parts != [] {
      JoinEnds(sep, parts);
    }
    StripOfTrimmed(Join(sep, parts));
  }

  /** `t` occurs in `s` starting at index `i`. */
  predicate OccursAt(s: string, t: string, i: int) {
    0 <= i && i + |t| <= |s| && forall m :: 0 <= m < |t| ==> s[i + m] == t[m]
  }

  /** Python's `t in s` for strings. */
  predicate Contains(s: string, t: string) {
    exists i :: 0 <= i <= |s| - |t| && OccursAt(s, t, i)
  }

  /** A prefix occurs at index 0. */
  lemma OccursAtStart(s: string, t: string)
    requires t <= s
    ensures OccursAt(s, t, 0)
  {
  }

  /** An occurrence in a suffix of `s` is an occurrence in `s`, shifted by where the suffix starts. */
  lemma OccursInSuffix(s: string, off: nat, t: string, j: int)
    requires off <= |s| && OccursAt(s[off..], t, j)
    ensures OccursAt(s, t, off + j)
  {
    forall m | 0 <= m < |t| ensures s[off + j + m] == t[m] {
      assert s[off..][j + m] == t[m];
    }
  }

  /** The first part occurs in the joined string, at its start. */
  lemma JoinHasFirst(sep: string, parts: seq<string>)
    requires parts != []
    ensures Contains(Join(sep, parts), parts[0])
  {
    OccursAtStart(Join(sep, parts), parts[0]);
  }

  /** What occurs in the join of the later parts occurs in the join of all parts. */
  lemma JoinKeepsTailPart(sep: string, parts: seq<string>, t: string)
    requires |parts| >= 2 && Contains(Join(sep, parts[1..]), t)
    ensures Contains(Join(sep, parts), t)
  {
    var r := Join(sep, parts);
    var tail := Join(sep, parts[1..]);
    var j :| 0 <= j <= |tail| - |t| && OccursAt(tail, t, j);
    var off := |parts[0]| + |sep|;
    assert r == parts[0] + sep + tail;
    assert r[off..] == tail;
    OccursInSuffix(r, off, t, j);
  }

  /** Every part occurs in the joined string. */
  lemma {:induction false} JoinHasPart(sep: string, parts: seq<string>, k: nat)
    requires k < |parts|
    ensures Contains(Join(sep, parts), parts[k])
  {
    if k == 0 {
      JoinHasFirst(sep, parts);
    } else {
      assert parts[1..][k - 1] == parts[k];
      JoinHasPart(sep, parts[1..], k - 1);
      JoinKeepsTailPart(sep, parts, parts[k]);
    }
  }

  /** Python's `s[:n]` for n >= 0. */
  function Prefix(s: string, n: nat): (r: string)
    ensures |r| == if |s| < n then |s| else n
    ensures r <= s
  {
    if |s| < n then s else s[..n]
  }
}
