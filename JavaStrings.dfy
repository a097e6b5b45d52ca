/** The few java.lang.String operations the splitter relies on: trim,
    lastIndexOf(char) and replace(CharSequence, CharSequence), together with
    a substring-occurrence predicate used to state what replace achieves.
    Strings are sequences of chars; lengths and indices count chars. */
module JavaStrings {

  /** String.trim removes every leading and trailing char whose code is at
      most U+0020 (space and the control characters). */
  predicate IsTrimmable(c: char) {
    c <= ' '
  }

  /** The index of the first char at or after `i` that trim keeps, scanning
      forwards as String.trim does. */
  function TrimStart(s: string, i: nat): (k: nat)
    requires i <= |s|
    ensures i <= k <= |s|
    decreases |s| - i
  {
    if i < |s| && IsTrimmable(s[i]) then TrimStart(s, i + 1) else i
  }

  /** The end of the text trim keeps, scanning backwards from `j` but never
      below `lo`. */
  function TrimEnd(s: string, lo: nat, j: nat): (k: nat)
    requires lo <= j <= |s|
    ensures lo <= k <= j
  {
    if lo < j && IsTrimmable(s[j - 1]) then TrimEnd(s, lo, j - 1) else j
  }

  /** String.trim */
  function Trim(s: string): (r: string)
    ensures |r| <= |s|
  {
    var st := TrimStart(s, 0);
    s[st..TrimEnd(s, st, |s|)]
  }

  /** `s.trim().isEmpty()` */
  predicate IsBlank(s: string) {
    |Trim(s)| == 0
  }

  /** TrimStart skips exactly the trimmable chars from `i` on. */
  lemma {:induction false} TrimStartSkips(s: string, i: nat)
    requires i <= |s|
    ensures var k := TrimStart(s, i);
            && (forall m :: i <= m < k ==> IsTrimmable(s[m]))
            && (k == |s| || !IsTrimmable(s[k]))
    decreases |s| - i
  {
    if i < |s| && IsTrimmable(s[i]) {
      TrimStartSkips(s, i + 1);
    }
  }

  /** TrimEnd skips exactly the trimmable chars before `j`, down to `lo`. */
  lemma {:induction false} TrimEndSkips(s: string, lo: nat, j: nat)
    requires lo <= j <= |s|
    ensures var k := TrimEnd(s, lo, j);
            && (forall m :: k <= m < j ==> IsTrimmable(s[m]))
            && (k == lo || !IsTrimmable(s[k - 1]))
  {
    if lo < j && IsTrimmable(s[j - 1]) {
      TrimEndSkips(s, lo, j - 1);
    }
  }

  /** Trim yields the substring left once the trimmable chars at both ends
      are dropped: it neither starts nor ends with a trimmable char. */
  lemma TrimIsSubstring(s: string)
    ensures var st := TrimStart(s, 0);
            var en := TrimEnd(s, st, |s|);
            var r := Trim(s);
            && r == s[st..en]
            && (forall i :: 0 <= i < st ==> IsTrimmable(s[i]))
            && (forall i :: en <= i < |s| ==> IsTrimmable(s[i]))
            && (r == [] || (!IsTrimmable(r[0]) && !IsTrimmable(r[|r| - 1])))
  {
    var st := TrimStart(s, 0);
    TrimStartSkips(s, 0);
    TrimEndSkips(s, st, |s|);
  }

  /** A string is blank exactly when all of its chars are trimmable. */
  lemma BlankIffAllTrimmable(s: string)
    ensures IsBlank(s) <==> forall i :: 0 <= i < |s| ==> IsTrimmable(s[i])
  {
    TrimIsSubstring(s);
  }

  /** Trimming an already trimmed string changes nothing. */
  lemma TrimIdempotent(s: string)
    ensures Trim(Trim(s)) == Trim(s)
  {
    var t := Trim(s);
    TrimIsSubstring(s);
    if t != [] {
      assert TrimStart(t, 0) == 0;
      assert TrimEnd(t, 0, |t|) == |t|;
      assert t[0..|t|] == t;
    }
  }

  /** The last index below `j` at which `c` occurs in `s`, or -1. */
  function LastIndexBefore(s: string, c: char, j: nat): (r: int)
    requires j <= |s|
    ensures -1 <= r < j
  {
    if j == 0 then -1
    else if s[j - 1] == c then j - 1
    else LastIndexBefore(s, c, j - 1)
  }

  /** The last index at which `c` occurs in `s`, or -1 (String.lastIndexOf). */
  function LastIndexOf(s: string, c: char): (r: int)
    ensures -1 <= r < |s|
  {
    LastIndexBefore(s, c, |s|)
  }

  lemma {:induction false} LastIndexBeforeIsLast(s: string, c: char, j: nat)
    requires j <= |s|
    ensures var r := LastIndexBefore(s, c, j);
            && (r >= 0 ==> s[r] == c)
            && forall i :: r < i < j ==> s[i] != c
  {
    if j > 0 && s[j - 1] != c {
      LastIndexBeforeIsLast(s, c, j - 1);
    }
  }

  /** LastIndexOf finds the last occurrence, and -1 exactly when there is none. */
  lemma LastIndexOfIsLast(s: string, c: char)
    ensures var r := LastIndexOf(s, c);
            && -1 <= r < |s|
            && (r >= 0 ==> s[r] == c)
            && forall i :: r < i < |s| ==> s[i] != c
  {
    LastIndexBeforeIsLast(s, c, |s|);
  }

  /** `t` occurs in `s` as a contiguous substring (String.contains). */
  predicate Contains(s: string, t: string)
    decreases |s|
  {
    t <= s || (|s| > 0 && Contains(s[1..], t))
  }

  /** String.replace: scans left to right and replaces each non-overlapping
      occurrence of `target` by `replacement`. */
  function Replace(s: string, target: string, replacement: string): (r: string)
    requires |target| > 0
    decreases |s|
  {
    if |s| == 0 then []
    else if target <= s then replacement + Replace(s[|target|..], target, replacement)
    else [s[0]] + Replace(s[1..], target, replacement)
  }

  /** Every char of `u` is one of the chars of `t`. */
  predicate CharsAmong(u: string, t: string) {
    forall i :: 0 <= i < |u| ==> u[i] in t
  }

  /** A prefix of `s` that begins with none of `t`'s first char cannot hide an
      occurrence of `t`. */
  lemma {:induction false} ContainsAfter(u: string, x: string, t: string)
    requires |t| > 0
    requires forall i :: 0 <= i < |u| ==> u[i] != t[0]
    ensures Contains(u + x, t) == Contains(x, t)
  {
    if u != [] {
      assert (u + x)[1..] == u[1..] + x;
      assert (u + x)[0] == u[0];
      ContainsAfter(u[1..], x, t);
    } else {
      assert u + x == x;
    }
  }

  /** As long as the output of Replace consists of target chars only, it
      agrees with its input, because a replacement contributes a char that is
      not a target char. */
  lemma {:induction false} ReplacePrefix(x: string, t: string, rep: string, m: nat)
    requires |t| > 0 && |rep| > 0
    requires forall i :: 0 <= i < |rep| ==> rep[i] !in t
    requires m <= |Replace(x, t, rep)|
    ensures CharsAmong(Replace(x, t, rep)[..m], t) ==> m <= |x| && Replace(x, t, rep)[..m] == x[..m]
    decreases |x|
  {
    var r := Replace(x, t, rep);
    if m > 0 && CharsAmong(r[..m], t) {
      assert r[..m][0] == r[0];
      assert r[0] in t && rep[0] !in t;
      var r' := Replace(x[1..], t, rep);
      assert r == [x[0]] + r';
      assert r'[..m - 1] == r[..m][1..];
      ReplacePrefix(x[1..], t, rep, m - 1);
      assert r[..m] == [x[0]] + r'[..m - 1];
      assert x[..m] == [x[0]] + x[1..][..m - 1];
    }
  }

  /** Once every occurrence of `t` is replaced by a non-empty string that
      shares no char with `t`, no occurrence of `t` is left. */
  lemma {:induction false} ReplaceRemovesTarget(s: string, t: string, rep: string)
    requires |t| > 0 && |rep| > 0
    requires forall i :: 0 <= i < |rep| ==> rep[i] !in t
    ensures !Contains(Replace(s, t, rep), t)
    decreases |s|
  {
    if |s| == 0 {
      assert !(t <= []);
    } else if t <= s {
      var rest := Replace(s[|t|..], t, rep);
      ReplaceRemovesTarget(s[|t|..], t, rep);
      forall i | 0 <= i < |rep| ensures rep[i] != t[0] {
        assert t[0] in t;
      }
      ContainsAfter(rep, rest, t);
    } else {
      var rest := Replace(s[1..], t, rep);
      var r := [s[0]] + rest;
      ReplaceRemovesTarget(s[1..], t, rep);
      assert r[1..] == rest;
      if |t| <= |r| {
        ReplacePrefix(s, t, rep, |t|);
        assert CharsAmong(t, t);
      }
    }
  }

  lemma {:induction false} ContainsInSuffix(s: string, k: nat, t: string)
    requires k <= |s|
    requires Contains(s[k..], t)
    ensures Contains(s, t)
  {
    if k > 0 {
      assert s[1..][k - 1..] == s[k..];
      ContainsInSuffix(s[1..], k - 1, t);
    } else {
      assert s[k..] == s;
    }
  }

  lemma {:induction false} ContainsInPrefix(s: string, k: nat, t: string)
    requires k <= |s|
    requires Contains(s[..k], t)
    ensures Contains(s, t)
  {
    if t <= s[..k] {
      assert s[..|t|] == s[..k][..|t|];
    } else {
      assert k > 0 && Contains(s[..k][1..], t);
      assert s[..k][1..] == s[1..][..k - 1];
      ContainsInPrefix(s[1..], k - 1, t);
    }
  }

  /** Trimming cannot create an occurrence of `t` that was not there. */
  lemma TrimKeepsAbsence(s: string, t: string)
    requires !Contains(s, t)
    ensures !Contains(Trim(s), t)
  {
    var st := TrimStart(s, 0);
    var en := TrimEnd(s, st, |s|);
    if Contains(Trim(s), t) {
      assert s[st..][..en - st] == Trim(s);
      ContainsInPrefix(s[st..], en - st, t);
      ContainsInSuffix(s, st, t);
      assert false;
    }
  }
}
