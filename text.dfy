/** The Python string operations the three scripts use, on `seq<char>`:
    `sub in s`, `s.split(sep)`, `sep.join(parts)`, `s.replace(pat, repl)`,
    `s.strip()`, `s.splitlines()` and `s.lower()`. */
module Text {

  /** `sub` occurs in `s` starting at index `i`. */
  predicate OccursAt(s: string, sub: string, i: int)
  {
    0 <= i && i + |sub| <= |s| && s[i..i + |sub|] == sub
  }

  /** Python's `sub in s`. */
  predicate Contains(s: string, sub: string)
  {
    exists i :: 0 <= i <= |s| - |sub| && OccursAt(s, sub, i)
  }

  /** A character missing from `s` that `sub` needs rules out every occurrence of `sub`. */
  lemma MissingCharNoOccurrence(s: string, sub: string, k: nat)
    requires k < |sub| && sub[k] !in s
    ensures forall i :: !OccursAt(s, sub, i)
  {
    forall i | 0 <= i && i + |sub| <= |s| ensures !OccursAt(s, sub, i) {
      assert s[i..i + |sub|][k] == s[i + k];
    }
  }

  /** No occurrence of `sub` can start before `k` when none of `s[..k]` is `sub`'s first
      character. */
  lemma FirstCharBlocks(s: string, sub: string, k: nat)
    requires |sub| > 0 && k <= |s|
    requires forall i :: 0 <= i < k ==> s[i] != sub[0]
    ensures forall i :: 0 <= i < k ==> !OccursAt(s, sub, i)
  {
    forall i | 0 <= i < k ensures !OccursAt(s, sub, i) {
      if i + |sub| <= |s| {
        assert s[i..i + |sub|][0] == s[i];
        assert s[i..i + |sub|] != sub;
      }
    }
  }

  // ---------------------------------------------------------------------------
  // split and join

  /** Python's `s.split(sep)` for a non-empty separator: the pieces between the
      occurrences of `sep` found scanning left to right, always at least one. */
  function Split(s: string, sep: string): (r: seq<string>)
    requires |sep| > 0
    ensures |r| >= 1
    decreases |s|
  {
    if |s| < |sep| then [s]
    else if s[..|sep|] == sep then [""] + Split(s[|sep|..], sep)
    else
      var rest := Split(s[1..], sep);
      [[s[0]] + rest[0]] + rest[1..]
  }

  /** Python's `sep.join(parts)`. */
  function Join(parts: seq<string>, sep: string): string
    decreases |parts|
  {
    if |parts| == 0 then ""
    else if |parts| == 1 then parts[0]
    else parts[0] + sep + Join(parts[1..], sep)
  }

  /** Putting a character in front of the first part puts it in front of the joined text. */
  lemma JoinConsHead(c: char, parts: seq<string>, sep: string)
    requires |parts| >= 1
    ensures Join([[c] + parts[0]] + parts[1..], sep) == [c] + Join(parts, sep)
  {
    var q := [[c] + parts[0]] + parts[1..];
    assert q[1..] == parts[1..];
    if |parts| > 1 {
      assert Join(q, sep) == ([c] + parts[0]) + sep + Join(parts[1..], sep);
    }
  }

  /** When `sep` does not occur in `s`, the split is `[s]`. */
  lemma {:induction false} SplitNone(s: string, sep: string)
    requires |sep| > 0
    requires forall i :: !OccursAt(s, sep, i)
    ensures Split(s, sep) == [s]
    decreases |s|
  {
    if |s| >= |sep| {
      assert !OccursAt(s, sep, 0);
      forall i ensures !OccursAt(s[1..], sep, i) {
        if OccursAt(s[1..], sep, i) {
          assert s[1..][i..i + |sep|] == s[i + 1..i + 1 + |sep|];
          assert OccursAt(s, sep, i + 1);
        }
      }
      SplitNone(s[1..], sep);
      assert s == [s[0]] + s[1..];
    }
  }

  /** When the first occurrence of `sep` in `s` is at `k`, the split's first piece is
      `s[..k]` and the rest is the split of what follows that occurrence. */
  lemma {:induction false} SplitAt(s: string, sep: string, k: nat)
    requires |sep| > 0 && OccursAt(s, sep, k)
    requires forall i :: 0 <= i < k ==> !OccursAt(s, sep, i)
    ensures Split(s, sep) == [s[..k]] + Split(s[k + |sep|..], sep)
    decreases k
  {
    if k == 0 {
      assert s[..|sep|] == sep;
    } else {
      assert !OccursAt(s, sep, 0);
      OccursShift(s, sep, k - 1);
      forall i | 0 <= i < k - 1 ensures !OccursAt(s[1..], sep, i) {
        OccursShift(s, sep, i);
      }
      SplitAt(s[1..], sep, k - 1);
      SplitAtStep(s, sep, k);
    }
  }

  /** An occurrence in `s[1..]` is one in `s`, one place later. */
  lemma OccursShift(s: string, sep: string, i: nat)
    requires |s| > 0
    ensures OccursAt(s[1..], sep, i) <==> OccursAt(s, sep, i + 1)
  {
    if i + |sep| <= |s| - 1 {
      assert s[1..][i..i + |sep|] == s[i + 1..i + 1 + |sep|];
    }
  }

  lemma SplitAtStep(s: string, sep: string, k: nat)
    requires |sep| > 0 && 0 < k && k + |sep| <= |s| && !OccursAt(s, sep, 0)
    requires Split(s[1..], sep) == [s[1..][..k - 1]] + Split(s[1..][k - 1 + |sep|..], sep)
    ensures Split(s, sep) == [s[..k]] + Split(s[k + |sep|..], sep)
  {
    assert s[..|sep|] != sep;
    var rest := Split(s[1..], sep);
    assert Split(s, sep) == [[s[0]] + rest[0]] + rest[1..];
    SliceShift(s, k, k + |sep|);
    var tail := s[1..][k - 1 + |sep|..];
    assert tail == s[k + |sep|..];
    assert rest[0] == s[1..][..k - 1] && rest[1..] == Split(tail, sep);
  }

  /** Slices of `s[1..]` are slices of `s` one place later. */
  lemma SliceShift(s: string, k: nat, m: nat)
    requires 0 < k <= m <= |s|
    ensures [s[0]] + s[1..][..k - 1] == s[..k] && s[1..][m - 1..] == s[m..]
  {
  }

  /** `Split(pre + sep + post)` when `pre` holds no occurrence of `sep` and none straddles. */
  lemma SplitFirst(pre: string, sep: string, post: string)
    requires |sep| > 0
    requires forall i :: 0 <= i < |pre| ==> !OccursAt(pre + sep + post, sep, i)
    ensures Split(pre + sep + post, sep) == [pre] + Split(post, sep)
  {
    var s := pre + sep + post;
    assert s[|pre|..|pre| + |sep|] == sep;
    SplitAt(s, sep, |pre|);
    assert s[..|pre|] == pre;
    assert s[|pre| + |sep|..] == post;
  }

  /** A text in which `sep` occurs only once splits into the parts around it. */
  lemma SplitOnce(a: string, sep: string, b: string)
    requires |sep| > 0
    requires forall i :: OccursAt(a + sep + b, sep, i) ==> i == |a|
    ensures Split(a + sep + b, sep) == [a, b]
  {
    var t := a + sep + b;
    forall i ensures !OccursAt(b, sep, i) {
      if OccursAt(b, sep, i) {
        assert t[|a| + |sep| + i..|a| + |sep| + i + |sep|] == b[i..i + |sep|];
        assert OccursAt(t, sep, |a| + |sep| + i);
      }
    }
    SplitFirst(a, sep, b);
    SplitNone(b, sep);
  }

  /** A separator split on itself leaves two empty pieces. */
  lemma SplitWhole(sep: string)
    requires |sep| > 0
    ensures Split(sep, sep) == ["", ""]
  {
    assert "" + sep + "" == sep;
    forall i | OccursAt("" + sep + "", sep, i) ensures i == 0 {}
    SplitOnce("", sep, "");
  }

  /** The first occurrence of `sep` at or before a known one. */
  lemma {:induction false} FirstOccurrence(s: string, sep: string, k: nat) returns (j: nat)
    requires OccursAt(s, sep, k)
    ensures j <= k && OccursAt(s, sep, j)
    ensures forall i :: 0 <= i < j ==> !OccursAt(s, sep, i)
    decreases k
  {
    if exists i :: 0 <= i < k && OccursAt(s, sep, i) {
      var i :| 0 <= i < k && OccursAt(s, sep, i);
      j := FirstOccurrence(s, sep, i);
    } else {
      j := k;
    }
  }

  /** A text splits into at least two pieces iff the separator occurs in it. */
  lemma SplitCount(s: string, sep: string)
    requires |sep| > 0
    ensures |Split(s, sep)| >= 2 <==> Contains(s, sep)
  {
    if Contains(s, sep) {
      var k :| 0 <= k <= |s| - |sep| && OccursAt(s, sep, k);
      var j := FirstOccurrence(s, sep, k);
      SplitAt(s, sep, j);
    } else {
      SplitNone(s, sep);
    }
  }

  /** A one-character separator occurs in `s` iff that character is in `s`. */
  lemma ContainsChar(s: string, c: char)
    ensures Contains(s, [c]) <==> c in s
  {
    if c in s {
      var k :| 0 <= k < |s| && s[k] == c;
      assert s[k..k + 1] == [c];
      assert OccursAt(s, [c], k);
    }
    if Contains(s, [c]) {
      var k :| 0 <= k <= |s| - 1 && OccursAt(s, [c], k);
      assert s[k..k + 1][0] == s[k];
    }
  }

  // ---------------------------------------------------------------------------
  // replace

  /** Python's `s.replace(pat, repl)` for a non-empty `pat`: every occurrence found
      scanning left to right, without overlaps, is replaced. */
  function Replace(s: string, pat: string, repl: string): string
    requires |pat| > 0
    decreases |s|
  {
    if |s| < |pat| then s
    else if s[..|pat|] == pat then repl + Replace(s[|pat|..], pat, repl)
    else [s[0]] + Replace(s[1..], pat, repl)
  }

  /** `replace` is `repl.join(s.split(pat))`: the text between the occurrences of `pat`
      is kept as it is and each occurrence becomes `repl`. */
  lemma {:induction false} ReplaceIsJoinSplit(s: string, pat: string, repl: string)
    requires |pat| > 0
    ensures Replace(s, pat, repl) == Join(Split(s, pat), repl)
    decreases |s|
  {
    if |s| < |pat| {
    } else if s[..|pat|] == pat {
      ReplaceIsJoinSplit(s[|pat|..], pat, repl);
      ReplaceAtPat(pat, s[|pat|..], repl);
      assert s == s[..|pat|] + s[|pat|..];
    } else {
      ReplaceIsJoinSplit(s[1..], pat, repl);
      ReplacePastChar(s, pat, repl);
    }
  }

  lemma ReplaceAtPat(pat: string, t: string, repl: string)
    requires |pat| > 0 && Replace(t, pat, repl) == Join(Split(t, pat), repl)
    ensures Replace(pat + t, pat, repl) == Join(Split(pat + t, pat), repl)
  {
    var s := pat + t;
    assert s[..|pat|] == pat && s[|pat|..] == t;
    var rest := Split(t, pat);
    var parts := [""] + rest;
    assert Split(s, pat) == parts;
    assert |parts| >= 2 && parts[0] == "" && parts[1..] == rest;
    assert Join(parts, repl) == "" + repl + Join(rest, repl);
    assert "" + repl == repl;
  }

  lemma ReplacePastChar(s: string, pat: string, repl: string)
    requires |pat| > 0 && |s| >= |pat| && s[..|pat|] != pat
    requires Replace(s[1..], pat, repl) == Join(Split(s[1..], pat), repl)
    ensures Replace(s, pat, repl) == Join(Split(s, pat), repl)
  {
    var rest := Split(s[1..], pat);
    assert Split(s, pat) == [[s[0]] + rest[0]] + rest[1..];
    JoinConsHead(s[0], rest, repl);
  }

  /** A text in which `pat` does not occur is left unchanged by `replace`. */
  lemma ReplaceAbsent(s: string, pat: string, repl: string)
    requires |pat| > 0 && !Contains(s, pat)
    ensures Replace(s, pat, repl) == s
  {
    assert forall i :: !OccursAt(s, pat, i);
    SplitNone(s, pat);
    ReplaceIsJoinSplit(s, pat, repl);
  }

  /** What `replace` puts in front cannot start with a text beginning with a character
      other than `repl[0]` unless the original text starts with it too. */
  lemma {:induction false} ReplacePrefixBack(u: string, pat: string, repl: string, w: string)
    requires |pat| > 0 && |repl| > 0 && repl[0] !in w
    ensures |w| <= |Replace(u, pat, repl)| && Replace(u, pat, repl)[..|w|] == w
            ==> |w| <= |u| && u[..|w|] == w
    decreases |u|
  {
    var r := Replace(u, pat, repl);
    if |w| > 0 && |u| >= |pat| {
      if u[..|pat|] == pat {
        // `r` then starts with `repl[0]`, which `w` does not hold.
        assert r == repl + Replace(u[|pat|..], pat, repl);
        assert |w| <= |r| ==> r[..|w|][0] == repl[0] != w[0];
      } else {
        var rest := Replace(u[1..], pat, repl);
        assert r == [u[0]] + rest;
        ReplacePrefixBack(u[1..], pat, repl, w[1..]);
        if |w| <= |r| && r[..|w|] == w {
          assert w[1..] == rest[..|w| - 1];
          assert u[..|w|] == [u[0]] + u[1..][..|w| - 1];
        }
      }
    }
  }

  /** A `replace` whose replacement shares with `pat` only what cannot line up with it
      leaves no occurrence of `pat` behind. */
  lemma {:induction false} ReplaceLeavesNoPat(t: string, pat: string, repl: string)
    requires |pat| > 0 && |repl| >= |pat| && repl[..|pat|] != pat
    requires pat[0] !in repl[1..] && repl[0] !in pat[1..]
    ensures forall i :: !OccursAt(Replace(t, pat, repl), pat, i)
    decreases |t|
  {
    var r := Replace(t, pat, repl);
    if |t| >= |pat| {
      if t[..|pat|] == pat {
        var rest := Replace(t[|pat|..], pat, repl);
        ReplaceLeavesNoPat(t[|pat|..], pat, repl);
        assert r == repl + rest;
        forall i | 0 <= i && i + |pat| <= |r| ensures !OccursAt(r, pat, i) {
          if i == 0 {
            assert r[i..i + |pat|] == repl[..|pat|];
          } else if i < |repl| {
            assert r[i..i + |pat|][0] == repl[i] == repl[1..][i - 1];
            assert r[i..i + |pat|][0] != pat[0];
          } else {
            assert r[i..i + |pat|] == rest[i - |repl|..i - |repl| + |pat|];
            assert !OccursAt(rest, pat, i - |repl|);
          }
        }
      } else {
        var rest := Replace(t[1..], pat, repl);
        ReplaceLeavesNoPat(t[1..], pat, repl);
        assert r == [t[0]] + rest;
        forall i | 0 <= i && i + |pat| <= |r| ensures !OccursAt(r, pat, i) {
          if i == 0 {
            ReplacePrefixBack(t[1..], pat, repl, pat[1..]);
            assert t[..|pat|] == [t[0]] + t[1..][..|pat| - 1];
            assert pat == [pat[0]] + pat[1..];
            assert t[1..][..|pat| - 1] != pat[1..] || t[0] != pat[0];
            assert r[i..i + |pat|] == [t[0]] + rest[..|pat| - 1];
          } else {
            assert r[i..i + |pat|] == rest[i - 1..i - 1 + |pat|];
            assert !OccursAt(rest, pat, i - 1);
          }
        }
      }
    }
  }

  /** A text without `p` has no `p` in any of its suffixes. */
  lemma NoOccurrenceSuffix(t: string, p: string, k: nat)
    requires k <= |t| && forall i :: !OccursAt(t, p, i)
    ensures forall i :: !OccursAt(t[k..], p, i)
  {
    forall i | 0 <= i && i + |p| <= |t| - k ensures !OccursAt(t[k..], p, i) {
      assert t[k..][i..i + |p|] == t[i + k..i + k + |p|];
      assert !OccursAt(t, p, i + k);
    }
  }

  /** A `replace` whose replacement has no character of `p` and starts with a character
      that is not in `p` adds no occurrence of `p`. */
  lemma {:induction false} ReplaceKeepsAbsent(t: string, pat: string, repl: string, p: string)
    requires |pat| > 0 && |repl| > 0 && |p| > 0 && p[0] !in repl && repl[0] !in p
    requires forall i :: !OccursAt(t, p, i)
    ensures forall i :: !OccursAt(Replace(t, pat, repl), p, i)
    decreases |t|
  {
    var r := Replace(t, pat, repl);
    if |t| >= |pat| {
      if t[..|pat|] == pat {
        var t' := t[|pat|..];
        NoOccurrenceSuffix(t, p, |pat|);
        var rest := Replace(t', pat, repl);
        ReplaceKeepsAbsent(t', pat, repl, p);
        assert r == repl + rest;
        forall i | 0 <= i && i + |p| <= |r| ensures !OccursAt(r, p, i) {
          if i < |repl| {
            assert r[i..i + |p|][0] == repl[i];
            assert r[i..i + |p|][0] != p[0];
          } else {
            assert r[i..i + |p|] == rest[i - |repl|..i - |repl| + |p|];
            assert !OccursAt(rest, p, i - |repl|);
          }
        }
      } else {
        var t' := t[1..];
        NoOccurrenceSuffix(t, p, 1);
        var rest := Replace(t', pat, repl);
        ReplaceKeepsAbsent(t', pat, repl, p);
        assert r == [t[0]] + rest;
        forall i | 0 <= i && i + |p| <= |r| ensures !OccursAt(r, p, i) {
          if i == 0 {
            ReplacePrefixBack(t', pat, repl, p[1..]);
            assert !OccursAt(t, p, 0);
            if |p| <= |t| {
              assert t[..|p|] == [t[0]] + t'[..|p| - 1];
            }
            assert p == [p[0]] + p[1..];
            assert r[i..i + |p|] == [t[0]] + rest[..|p| - 1];
          } else {
            assert r[i..i + |p|] == rest[i - 1..i - 1 + |p|];
            assert !OccursAt(rest, p, i - 1);
          }
        }
      }
    }
  }

  /** `s` with every `c` deleted. */
  function Without(s: string, c: char): (r: string)
    ensures c !in r
    ensures forall d :: d != c ==> (d in r <==> d in s)
    decreases |s|
  {
    if s == [] then ""
    else (if s[0] == c then "" else [s[0]]) + Without(s[1..], c)
  }

  /** Replacing a one-character string with the empty string deletes that character. */
  lemma {:induction false} ReplaceCharDeletes(s: string, c: char)
    ensures Replace(s, [c], "") == Without(s, c)
    decreases |s|
  {
    if s != [] {
      ReplaceCharDeletes(s[1..], c);
      assert s[..1] == [s[0]];
    }
  }

  /** Deleting a character from a concatenation deletes it from either part. */
  lemma {:induction false} WithoutAppend(a: string, b: string, c: char)
    ensures Without(a + b, c) == Without(a, c) + Without(b, c)
    decreases |a|
  {
    if a == [] {
      assert a + b == b;
    } else {
      var head: string := if a[0] == c then "" else [a[0]];
      assert (a + b)[0] == a[0] && (a + b)[1..] == a[1..] + b;
      assert Without(a + b, c) == head + Without(a[1..] + b, c);
      assert Without(a, c) == head + Without(a[1..], c);
      WithoutAppend(a[1..], b, c);
      assert head + (Without(a[1..], c) + Without(b, c)) == (head + Without(a[1..], c)) + Without(b, c);
    }
  }

  /** Deleting a character that is not there changes nothing. */
  lemma {:induction false} WithoutAbsent(s: string, c: char)
    requires c !in s
    ensures Without(s, c) == s
    decreases |s|
  {
    if s != [] {
      assert c !in s[1..] by { assert forall k :: 0 <= k < |s[1..]| ==> s[1..][k] == s[k + 1]; }
      WithoutAbsent(s[1..], c);
      assert s == [s[0]] + s[1..];
    }
  }

  // ---------------------------------------------------------------------------
  // strip

  /** Python's `str.isspace()` for one character. */
  predicate IsSpace(c: char)
  {
    var n := c as int;
    n == 32 || 9 <= n <= 13 || 28 <= n <= 31 || n == 0x85 || n == 0xA0 || n == 0x1680
    || 0x2000 <= n <= 0x200A || n == 0x2028 || n == 0x2029 || n == 0x202F || n == 0x205F
    || n == 0x3000
  }

  predicate AllSpace(s: string)
  {
    forall i :: 0 <= i < |s| ==> IsSpace(s[i])
  }

  /** Python's `s.lstrip()`: the longest suffix of `s` that does not start with whitespace. */
  function TrimStart(s: string): (r: string)
    ensures |r| <= |s| && r == s[|s| - |r|..]
    ensures AllSpace(s[..|s| - |r|])
    ensures r != [] ==> !IsSpace(r[0])
    decreases |s|
  {
    if |s| > 0 && IsSpace(s[0]) then
      var r := TrimStart(s[1..]);
      TrimStartStep(s, r);
      r
    else s
  }

  /** A leading space in front of what `lstrip()` cut from the rest is cut as well. */
  lemma TrimStartStep(s: string, r: string)
    requires |s| > 0 && IsSpace(s[0])
    requires |r| <= |s| - 1 && r == s[1..][|s| - 1 - |r|..] && AllSpace(s[1..][..|s| - 1 - |r|])
    ensures |r| <= |s| && r == s[|s| - |r|..] && AllSpace(s[..|s| - |r|])
  {
    var k := |s| - |r|;
    assert s[1..][k - 1..] == s[k..];
    forall i | 0 <= i < k ensures IsSpace(s[..k][i]) {
      if i > 0 {
        assert s[..k][i] == s[1..][..k - 1][i - 1];
      }
    }
  }

  /** Python's `s.rstrip()`: the longest prefix of `s` that does not end with whitespace. */
  function TrimEnd(s: string): (r: string)
    ensures |r| <= |s| && r == s[..|r|]
    ensures AllSpace(s[|r|..])
    ensures r != [] ==> !IsSpace(r[|r| - 1])
    decreases |s|
  {
    if |s| > 0 && IsSpace(s[|s| - 1]) then
      var r := TrimEnd(s[..|s| - 1]);
      TrimEndStep(s, r);
      r
    else s
  }

  /** A trailing space after what `rstrip()` cut from the rest is cut as well. */
  lemma TrimEndStep(s: string, r: string)
    requires |s| > 0 && IsSpace(s[|s| - 1])
    requires |r| <= |s| - 1 && r == s[..|s| - 1][..|r|] && AllSpace(s[..|s| - 1][|r|..])
    ensures |r| <= |s| && r == s[..|r|] && AllSpace(s[|r|..])
  {
    var n := |s|;
    assert s[..n - 1][..|r|] == s[..|r|];
    forall i | 0 <= i < n - |r| ensures IsSpace(s[|r|..][i]) {
      if i < n - 1 - |r| {
        assert s[|r|..][i] == s[..n - 1][|r|..][i];
      }
    }
  }

  /** Python's `s.strip()`: neither end of the result is whitespace (`StripSlice` gives
      the rest of its meaning). */
  function Strip(s: string): (r: string)
    ensures r != [] ==> !IsSpace(r[0]) && !IsSpace(r[|r| - 1])
  {
    TrimEnd(TrimStart(s))
  }

  /** A text that neither starts nor ends with whitespace is its own `strip()`. */
  lemma StripKeeps(s: string)
    requires s != [] ==> !IsSpace(s[0]) && !IsSpace(s[|s| - 1])
    ensures Strip(s) == s
  {
    assert TrimStart(s) == s;
  }

  /** `s.strip()` is a slice `s[i..i + |r|]` with only whitespace cut off on either side. */
  lemma StripSlice(s: string)
    ensures var r := Strip(s);
      exists i :: 0 <= i <= |s| - |r| && r == s[i..i + |r|] && AllSpace(s[..i]) && AllSpace(s[i + |r|..])
  {
    var t := TrimStart(s);
    var r := TrimEnd(t);
    var i := |s| - |t|;
    assert t == s[i..] && AllSpace(s[..i]);
    assert r == t[..|r|] && AllSpace(t[|r|..]);
    StripCuts(s, t, r, i);
    assert Strip(s) == r;
  }

  /** A suffix `t` of `s` past leading whitespace, cut again at trailing whitespace to `r`,
      is the slice of `s` at `|s| - |t|` with only whitespace cut off on either side. */
  lemma StripCuts(s: string, t: string, r: string, i: int)
    requires |t| <= |s| && i == |s| - |t| && t == s[i..] && AllSpace(s[..i])
    requires t != [] ==> !IsSpace(t[0])
    requires |r| <= |t| && r == t[..|r|] && AllSpace(t[|r|..])
    requires r != [] ==> !IsSpace(r[|r| - 1])
    ensures 0 <= i <= |s| - |r| && r == s[i..i + |r|]
    ensures AllSpace(s[..i]) && AllSpace(s[i + |r|..])
    ensures r != [] ==> !IsSpace(r[0]) && !IsSpace(r[|r| - 1])
    ensures exists j :: 0 <= j <= |s| - |r| && r == s[j..j + |r|] && AllSpace(s[..j]) && AllSpace(s[j + |r|..])
  {
    assert s[i..][..|r|] == s[i..i + |r|];
    assert s[i..][|r|..] == s[i + |r|..];
    assert r != [] ==> r[0] == t[0];
  }

  // ---------------------------------------------------------------------------
  // splitlines

  /** The line boundaries of Python's `str.splitlines()`. */
  predicate IsLineBreak(c: char)
  {
    var n := c as int;
    10 <= n <= 13 || 28 <= n <= 30 || n == 0x85 || n == 0x2028 || n == 0x2029
  }

  predicate NoLineBreak(s: string)
  {
    forall i :: 0 <= i < |s| ==> !IsLineBreak(s[i])
  }

  /** Index of the first line boundary in `s`, or `|s|` if there is none. */
  function LineEnd(s: string): (e: nat)
    ensures e <= |s| && NoLineBreak(s[..e])
    ensures e < |s| ==> IsLineBreak(s[e])
    decreases |s|
  {
    if s == [] || IsLineBreak(s[0]) then 0
    else
      var e := LineEnd(s[1..]);
      assert s[..e + 1] == [s[0]] + s[1..][..e];
      e + 1
  }

  /** Python's `s.splitlines()`: the lines without their boundaries; `"\r\n"` is one
      boundary; a final boundary does not start an extra empty line. */
  function SplitLines(s: string): (r: seq<string>)
    ensures forall k :: 0 <= k < |r| ==> NoLineBreak(r[k])
    ensures |r| == 0 <==> |s| == 0
    decreases |s|
  {
    if s == [] then []
    else
      var e := LineEnd(s);
      if e == |s| then [s]
      else
        var next := if s[e] == '\r' && e + 1 < |s| && s[e + 1] == '\n' then e + 2 else e + 1;
        [s[..e]] + SplitLines(s[next..])
  }

  // ---------------------------------------------------------------------------
  // lower

  function LowerChar(c: char): char
  {
    if 'A' <= c <= 'Z' then (c as int + 32) as char else c
  }

  /** Python's `s.lower()` on the ASCII letters; every other character is kept. */
  function Lower(s: string): (r: string)
    ensures |r| == |s| && forall i :: 0 <= i < |s| ==> r[i] == LowerChar(s[i])
  {
    seq(|s|, i requires 0 <= i < |s| => LowerChar(s[i]))
  }

  /** A separator character absent from `pre` ends the first piece right after `pre`. */
  lemma SplitCharFirst(pre: string, c: char, post: string)
    requires c !in pre
    ensures Split(pre + [c] + post, [c]) == [pre] + Split(post, [c])
  {
    var s := pre + [c] + post;
    forall i | 0 <= i < |pre| ensures !OccursAt(s, [c], i) {
      assert s[i] == pre[i];
      assert s[i..i + 1][0] == s[i];
    }
    SplitFirst(pre, [c], post);
  }

  /** A text without the separator character splits into itself alone. */
  lemma SplitCharNone(s: string, c: char)
    requires c !in s
    ensures Split(s, [c]) == [s]
  {
    forall i | 0 <= i && i + 1 <= |s| ensures !OccursAt(s, [c], i) {
      assert s[i..i + 1][0] == s[i];
    }
    SplitNone(s, [c]);
  }

  /** Splitting a join on a separator character that no part holds gives back the parts. */
  lemma {:induction false} SplitJoin(parts: seq<string>, c: char)
    requires |parts| >= 1
    requires forall k :: 0 <= k < |parts| ==> c !in parts[k]
    ensures Split(Join(parts, [c]), [c]) == parts
    decreases |parts|
  {
    if |parts| == 1 {
      SplitCharNone(parts[0], c);
    } else {
      var rest := parts[1..];
      forall k | 0 <= k < |rest| ensures c !in rest[k] {
        assert rest[k] == parts[k + 1];
      }
      SplitJoin(rest, c);
      SplitCharFirst(parts[0], c, Join(rest, [c]));
      assert parts == [parts[0]] + rest;
    }
  }

  /** `s` with every `a` turned into `b`, position by position. */
  function MapChar(s: string, a: char, b: char): (r: string)
    ensures |r| == |s|
    ensures forall i :: 0 <= i < |s| ==> r[i] == (if s[i] == a then b else s[i])
  {
    seq(|s|, i requires 0 <= i < |s| => if s[i] == a then b else s[i])
  }

  /** Replacing one character by another (`s.replace(' ', '_')`) maps the text position by
      position. */
  lemma {:induction false} ReplaceCharMaps(s: string, a: char, b: char)
    ensures Replace(s, [a], [b]) == MapChar(s, a, b)
    decreases |s|
  {
    if s != [] {
      ReplaceCharMaps(s[1..], a, b);
      assert MapChar(s, a, b) == [if s[0] == a then b else s[0]] + MapChar(s[1..], a, b);
      if s[0] == a {
        assert s[..1] == [a];
      } else {
        assert s[..1] != [a] by { assert s[..1][0] == s[0]; }
      }
    }
  }

  // ---------------------------------------------------------------------------
  // title (ASCII letters)

  predicate IsLetter(c: char)
  {
    'A' <= c <= 'Z' || 'a' <= c <= 'z'
  }

  function UpperChar(c: char): char
  {
    if 'a' <= c <= 'z' then (c as int - 32) as char else c
  }

  /** One character of `title()`: upper-cased after a non-letter, lower-cased after a letter. */
  function TitleChar(afterLetter: bool, c: char): (r: char)
    ensures IsLetter(r) == IsLetter(c)
  {
    if afterLetter then LowerChar(c) else UpperChar(c)
  }

  /** Python's `s.title()` on ASCII text: a letter is upper-cased when it starts a run of
      letters and lower-cased otherwise; other characters are kept. */
  function Title(s: string): (r: string)
    ensures |r| == |s|
    ensures forall i :: 0 <= i < |s| ==> r[i] == TitleChar(i > 0 && IsLetter(s[i - 1]), s[i])
  {
    seq(|s|, i requires 0 <= i < |s| => TitleChar(i > 0 && IsLetter(s[i - 1]), s[i]))
  }
}
