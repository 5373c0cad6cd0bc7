/** `mask_email`: hides the middle of an e-mail address's local part. Python's
    `str.split` and its slices, negative start included, are modelled
    explicitly. */
module Utils {
  import opened Wrappers

  /** The number of occurrences of `c` in `s`. */
  function Count(s: string, c: char): nat
  {
    if |s| == 0 then 0 else (if s[0] == c then 1 else 0) + Count(s[1..], c)
  }

  /** Python's `s.split(c)` for a one-character separator: the pieces between
      the occurrences of `c`, empty pieces included. */
  function Split(s: string, c: char): (r: seq<string>)
    ensures |r| >= 1
    ensures c !in s ==> r == [s]
  {
    if |s| == 0 then [""]
    else if s[0] == c then [""] + Split(s[1..], c)
    else
      var rest := Split(s[1..], c);
      assert c !in s ==> c !in s[1..] && [s[0]] + s[1..] == s;
      [[s[0]] + rest[0]] + rest[1..]
  }

  /** `c.join(parts)`. */
  function Join(parts: seq<string>, c: char): string
    requires |parts| >= 1
  {
    if |parts| == 1 then parts[0] else parts[0] + [c] + Join(parts[1..], c)
  }

  /** `s[:n]` for `n >= 0`. */
  function Prefix(s: string, n: nat): (r: string)
    ensures |r| == if n <= |s| then n else |s|
    ensures r == s[..|r|]
  {
    if n <= |s| then s[..n] else s
  }

  /** `s[i:]`: a negative start counts from the end, and a start still below 0
      after that reads as 0. */
  function SliceFrom(s: string, i: int): (r: string)
    ensures var j := if i < 0 then i + |s| else i;
      var k := if j < 0 then 0 else if j > |s| then |s| else j;
      r == s[k..]
  {
    var j := if i < 0 then i + |s| else i;
    if j <= 0 then s else if j >= |s| then [] else s[j..]
  }

  /** `mask_length`. */
  function MaskLength(address: string): nat
  {
    if |address| <= 6 then 1 else 3
  }

  /** `mask_email`; None stands for the ValueError the two-name unpacking of
      the split raises unless the address has exactly one "@". */
  function MaskEmail(email: string): (r: Option<string>)
    ensures r.Some? ==> |Split(email, '@')| == 2
    ensures r.Some? ==> var d := Split(email, '@')[1];
      |r.value| >= |d| + 5 && r.value[|r.value| - |d| - 1..] == "@" + d
  {
    var parts := Split(email, '@');
    if |parts| != 2 then None
    else
      var address, domain := parts[0], parts[1];
      var m := MaskLength(address);
      var masked := Prefix(address, m) + "****" + SliceFrom(address, |address| - m);
      assert (masked + "@" + domain)[|masked|..] == "@" + domain;
      Some(masked + "@" + domain)
  }

  // --- the split ---------------------------------------------------------------

  /** There is one more piece than there are separators. */
  lemma {:induction false} SplitCount(s: string, c: char)
    ensures |Split(s, c)| == Count(s, c) + 1
    decreases |s|
  {
    if |s| > 0 {
      SplitCount(s[1..], c);
    }
  }

  /** No piece holds the separator. */
  lemma {:induction false} SplitPiecesClean(s: string, c: char)
    ensures forall i :: 0 <= i < |Split(s, c)| ==> c !in Split(s, c)[i]
    decreases |s|
  {
    if |s| > 0 {
      SplitPiecesClean(s[1..], c);
      var rest := Split(s[1..], c);
      if s[0] != c {
        assert c !in rest[0];
        assert c !in [s[0]] + rest[0];
      }
    }
  }

  /** Joining the pieces with the separator gives the string back. */
  lemma {:induction false} SplitJoin(s: string, c: char)
    ensures Join(Split(s, c), c) == s
    decreases |s|
  {
    if |s| > 0 {
      SplitJoin(s[1..], c);
      var rest := Split(s[1..], c);
      if s[0] == c {
        assert Split(s, c)[1..] == rest;
      } else {
        var parts := Split(s, c);
        assert parts[1..] == rest[1..];
        if |rest| == 1 {
          assert s == [s[0]] + s[1..];
        } else {
          assert Join(rest, c) == rest[0] + [c] + Join(rest[1..], c);
          assert s == [s[0]] + s[1..];
        }
      }
    }
  }

  /** A string without the separator is a single piece. */
  lemma {:induction false} SplitNone(s: string, c: char)
    requires c !in s
    ensures Split(s, c) == [s]
    decreases |s|
  {
    if |s| > 0 {
      assert s[0] != c;
      assert c !in s[1..];
      SplitNone(s[1..], c);
      assert [s[0]] + s[1..] == s;
    }
  }

  /** Splitting `a + [c] + d`, where neither part holds `c`, gives [a, d]. */
  lemma {:induction false} SplitTwo(a: string, d: string, c: char)
    requires c !in a && c !in d
    ensures Split(a + [c] + d, c) == [a, d]
    decreases |a|
  {
    if |a| == 0 {
      assert a + [c] + d == [c] + d;
      assert ([c] + d)[1..] == d;
      SplitNone(d, c);
    } else {
      var s := a + [c] + d;
      assert s[0] == a[0] && s[1..] == a[1..] + [c] + d;
      assert c !in a[1..];
      SplitTwo(a[1..], d, c);
      assert [a[0]] + a[1..] == a;
    }
  }

  // --- the mask -------------------------------------------------------------------

  /** `mask_email` succeeds exactly for addresses with exactly one "@". */
  lemma MaskDefinedIff(email: string)
    ensures MaskEmail(email).Some? <==> Count(email, '@') == 1
  {
    SplitCount(email, '@');
  }

  /** An address with exactly one "@" is its local part, "@" and its domain,
      neither of which holds an "@", so `MaskOf` and `MaskEmptyLocal` cover
      every address `mask_email` accepts. */
  lemma OneAtSplits(email: string)
    requires Count(email, '@') == 1
    ensures var parts := Split(email, '@');
      |parts| == 2 && email == parts[0] + "@" + parts[1] && '@' !in parts[0] && '@' !in parts[1]
  {
    SplitCount(email, '@');
    SplitJoin(email, '@');
    SplitPiecesClean(email, '@');
    var parts := Split(email, '@');
    assert Join(parts[1..], '@') == parts[1];
  }

  /** For a non-empty local part `a`, the mask keeps the first and the last `m`
      characters of `a`, where `m` is 1 for a local part of at most six
      characters and 3 otherwise, puts four asterisks between them, and keeps
      the domain. */
  lemma MaskOf(a: string, d: string)
    requires '@' !in a && '@' !in d && |a| >= 1
    ensures var m := if |a| <= 6 then 1 else 3;
      && m <= |a|
      && MaskEmail(a + "@" + d) == Some(a[..m] + "****" + a[|a| - m..] + "@" + d)
      && |MaskEmail(a + "@" + d).value| == 2 * m + 5 + |d|
  {
    MaskShape(a, d);
  }

  /** An empty local part masks to "****@" followed by the domain: the slice
      `address[-1:]` of the empty string is empty. */
  lemma MaskEmptyLocal(d: string)
    requires '@' !in d
    ensures MaskEmail("@" + d) == Some("****@" + d)
  {
    SplitTwo("", d, '@');
    assert "" + ['@'] + d == "@" + d;
    assert Prefix("", 1) == "" && SliceFrom("", -1) == "";
    assert "" + "****" + "" + "@" + d == "****@" + d;
  }

  /** A masked address ends with "@" and the domain unchanged, and starts with
      the first `m` characters of the local part (all of it when shorter). By
      `OneAtSplits` every address `mask_email` accepts has this form. */
  lemma MaskKeepsEnds(a: string, d: string)
    requires '@' !in a && '@' !in d
    ensures MaskEmail(a + "@" + d).Some?
    ensures var r := MaskEmail(a + "@" + d).value;
      var head := Prefix(a, MaskLength(a));
      && |d| + 1 <= |r| && r[|r| - |d| - 1..] == "@" + d
      && |head| <= |r| && r[..|head|] == head
  {
    MaskShape(a, d);
    var m := MaskLength(a);
    Ends(Prefix(a, m), "****", SliceFrom(a, |a| - m), "@", d);
  }

  /** The mask of a local part and a domain, neither holding "@". */
  lemma MaskShape(a: string, d: string)
    requires '@' !in a && '@' !in d
    ensures var m := MaskLength(a);
      MaskEmail(a + "@" + d) == Some(Prefix(a, m) + "****" + SliceFrom(a, |a| - m) + "@" + d)
  {
    SplitTwo(a, d, '@');
    assert a + ['@'] + d == a + "@" + d;
  }

  /** The first part and the last two parts of a five-part concatenation. */
  lemma Ends(a: string, b: string, c: string, d: string, e: string)
    ensures var r := a + b + c + d + e;
      |a| <= |r| && r[..|a|] == a && |d + e| <= |r| && r[|r| - |d + e|..] == d + e
  {
    var r := a + b + c + d + e;
    assert r == a + (b + c + d + e);
    assert r == (a + b + c) + (d + e);
  }
}
