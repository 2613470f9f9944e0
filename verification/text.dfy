/** String handling shared by the routes: the search-term sanitiser
    (`replace(/[^a-zA-Z0-9 ]/g, "")`), ASCII `toLowerCase`, and the
    case-insensitive substring test a regular expression with no
    metacharacters and the `i` flag performs. */
module Text {
  import opened Sequences

  /** The characters the sanitiser keeps: `[a-zA-Z0-9 ]`. */
  predicate IsAllowed(c: char) {
    ('a' <= c <= 'z') || ('A' <= c <= 'Z') || ('0' <= c <= '9') || c == ' '
  }

  /** The characters with a special meaning in a JavaScript regular expression. */
  predicate IsRegexMeta(c: char) {
    c in "\\^$.|?*+()[]{}/-"
  }

  /** `s.replace(/[^a-zA-Z0-9 ]/g, "")`: drop every character outside the allowed set. */
  function Sanitize(s: string): (r: string)
    ensures |r| <= |s|
    ensures forall i :: 0 <= i < |r| ==> IsAllowed(r[i])
  {
    if |s| == 0 then ""
    else
      assert s == [s[0]] + s[1..];
      (if IsAllowed(s[0]) then [s[0]] else "") + Sanitize(s[1..])
  }

  /** Contents: every allowed character survives as often as it occurs in the
      input, and no other character survives. */
  lemma {:induction false} SanitizeCounts(s: string, c: char)
    ensures multiset(Sanitize(s))[c] == if IsAllowed(c) then multiset(s)[c] else 0
  {
    if |s| > 0 {
      SanitizeCounts(s[1..], c);
      assert s == [s[0]] + s[1..];
    }
  }

  /** The sanitiser keeps the surviving characters in their original order. */
  lemma {:induction false} SanitizeIsSubsequence(s: string)
    ensures IsSubsequence(Sanitize(s), s)
  {
    if |s| > 0 {
      SanitizeIsSubsequence(s[1..]);
      var a := Sanitize(s);
      if IsAllowed(s[0]) {
        assert a == [s[0]] + Sanitize(s[1..]);
        assert a[0] == s[0] && a[1..] == Sanitize(s[1..]);
      } else {
        assert a == Sanitize(s[1..]);
      }
    }
  }

  /** The sanitiser works character by character: it distributes over concatenation.
      Together with its action on one character this determines it completely. */
  lemma {:induction false} SanitizeConcat(a: string, b: string)
    ensures Sanitize(a + b) == Sanitize(a) + Sanitize(b)
  {
    if |a| == 0 {
      assert a + b == b;
    } else {
      assert (a + b)[1..] == a[1..] + b;
      SanitizeConcat(a[1..], b);
    }
  }

  /** One character is kept iff it is allowed. */
  lemma SanitizeChar(c: char)
    ensures Sanitize([c]) == if IsAllowed(c) then [c] else ""
  {
    assert [c][1..] == "";
  }

  /** A string is left unchanged iff it consists of allowed characters only. */
  lemma {:induction false} SanitizeFixpoint(s: string)
    ensures Sanitize(s) == s <==> forall i :: 0 <= i < |s| ==> IsAllowed(s[i])
  {
    if |s| > 0 {
      SanitizeFixpoint(s[1..]);
      if !IsAllowed(s[0]) {
        assert |Sanitize(s)| < |s|;
      } else if Sanitize(s) == s {
        assert Sanitize(s[1..]) == s[1..];
      }
    }
  }

  /** Sanitising twice is sanitising once. */
  lemma SanitizeIdempotent(s: string)
    ensures Sanitize(Sanitize(s)) == Sanitize(s)
  {
    SanitizeFixpoint(Sanitize(s));
  }

  /** A sanitised term contains no regular-expression metacharacter, so
      `new RegExp(term, 'i')` matches the term literally. */
  lemma SanitizedIsLiteral(s: string)
    ensures forall i :: 0 <= i < |Sanitize(s)| ==> !IsRegexMeta(Sanitize(s)[i])
  {
  }

  /** A punctuation mark between two runs of allowed characters is simply
      cut out, as the apostrophe of `don't` is. */
  lemma SanitizeDropsPunctuation(a: string, c: char, b: string)
    requires forall i :: 0 <= i < |a| ==> IsAllowed(a[i])
    requires forall i :: 0 <= i < |b| ==> IsAllowed(b[i])
    requires !IsAllowed(c)
    ensures Sanitize(a + [c] + b) == a + b
  {
    assert Sanitize(a) == a by { SanitizeFixpoint(a); }
    assert Sanitize(b) == b by { SanitizeFixpoint(b); }
    assert Sanitize([c]) == "" by { SanitizeChar(c); }
    assert Sanitize(a + [c]) == a by { SanitizeConcat(a, [c]); }
    SanitizeConcat(a + [c], b);
  }

  /** A string of lower-case letters and spaces passes the filter whole. */
  lemma AllLettersAllowed(s: string)
    requires forall i :: 0 <= i < |s| ==> ('a' <= s[i] <= 'z') || s[i] == ' '
    ensures forall i :: 0 <= i < |s| ==> IsAllowed(s[i])
  {
  }

  /** `don't stop!` cut around its two punctuation marks. */
  lemma DontStopSplit()
    ensures "don't stop!" == ("don" + ['\''] + "t stop") + ['!']
    ensures "don" + "t stop" == "dont stop"
  {
  }

  /** The search box example: `don't stop!` is searched for as `dont stop`. */
  lemma SanitizeDontStop()
    ensures Sanitize("don't stop!") == "dont stop"
  {
    var a, b := "don", "t stop";
    AllLettersAllowed(a);
    AllLettersAllowed(b);
    SanitizeDropsPunctuation(a, '\'', b);
    SanitizeChar('!');
    SanitizeConcat(a + ['\''] + b, ['!']);
    DontStopSplit();
  }

  // ------------------------------------------------------------ lower case

  /** ASCII `toLowerCase` of one character. */
  function LowerChar(c: char): char {
    if 'A' <= c <= 'Z' then (c as int + 32) as char else c
  }

  /** ASCII `toLowerCase`: each character lower-cased in place. */
  function Lower(s: string): (r: string)
    ensures |r| == |s|
    ensures forall i :: 0 <= i < |s| ==> r[i] == LowerChar(s[i])
  {
    if |s| == 0 then "" else [LowerChar(s[0])] + Lower(s[1..])
  }

  /** Lower-casing twice is lower-casing once. */
  lemma LowerIdempotent(s: string)
    ensures Lower(Lower(s)) == Lower(s)
  {
  }

  /** Lower-casing distributes over concatenation. */
  lemma LowerConcat(a: string, b: string)
    ensures Lower(a + b) == Lower(a) + Lower(b)
  {
  }

  /** Lower-casing and sanitising commute: lower-casing maps allowed characters to
      allowed characters and leaves every other character outside the allowed set. */
  lemma {:induction false} LowerSanitize(s: string)
    ensures Lower(Sanitize(s)) == Sanitize(Lower(s))
  {
    if |s| > 0 {
      LowerSanitize(s[1..]);
      var head := if IsAllowed(s[0]) then [s[0]] else "";
      LowerConcat(head, Sanitize(s[1..]));
      assert IsAllowed(LowerChar(s[0])) <==> IsAllowed(s[0]);
    }
  }

  /** A character lower-cases to the lower-case letter `lo` iff it is `lo`
      or its upper-case partner `up`. */
  lemma LowerCharTo(c: char, lo: char, up: char)
    requires 'a' <= lo <= 'z' && up as int == lo as int - 32
    ensures LowerChar(c) == lo <==> c == lo || c == up
  {
  }

  /** The five letters of a name whose lower case is "admin". */
  lemma ReservedLetters(n: string)
    requires Lower(n) == "admin"
    ensures |n| == 5
    ensures (n[0] == 'a' || n[0] == 'A') && (n[1] == 'd' || n[1] == 'D') && (n[2] == 'm' || n[2] == 'M') &&
            (n[3] == 'i' || n[3] == 'I') && (n[4] == 'n' || n[4] == 'N')
  {
    var l := Lower(n);
    assert l[0] == 'a' && l[1] == 'd' && l[2] == 'm' && l[3] == 'i' && l[4] == 'n';
    LowerCharTo(n[0], 'a', 'A');
    LowerCharTo(n[1], 'd', 'D');
    LowerCharTo(n[2], 'm', 'M');
    LowerCharTo(n[3], 'i', 'I');
    LowerCharTo(n[4], 'n', 'N');
  }

  /** Every mixed-case spelling of "admin" lower-cases to "admin". */
  lemma ReservedFromLetters(n: string)
    requires |n| == 5
    requires (n[0] == 'a' || n[0] == 'A') && (n[1] == 'd' || n[1] == 'D') && (n[2] == 'm' || n[2] == 'M') &&
             (n[3] == 'i' || n[3] == 'I') && (n[4] == 'n' || n[4] == 'N')
    ensures Lower(n) == "admin"
  {
    var l := Lower(n);
    LowerCharTo(n[0], 'a', 'A');
    LowerCharTo(n[1], 'd', 'D');
    LowerCharTo(n[2], 'm', 'M');
    LowerCharTo(n[3], 'i', 'I');
    LowerCharTo(n[4], 'n', 'N');
    assert l[0] == 'a' && l[1] == 'd' && l[2] == 'm' && l[3] == 'i' && l[4] == 'n';
    assert forall k :: 0 <= k < 5 ==> l[k] == "admin"[k];
  }

  /** The names `toLowerCase() === 'admin'` accepts are exactly the 32 spellings
      of "admin" in mixed case. */
  lemma ReservedSpellings(n: string)
    ensures Lower(n) == "admin" <==>
      |n| == 5 &&
      (n[0] == 'a' || n[0] == 'A') && (n[1] == 'd' || n[1] == 'D') && (n[2] == 'm' || n[2] == 'M') &&
      (n[3] == 'i' || n[3] == 'I') && (n[4] == 'n' || n[4] == 'N')
  {
    if Lower(n) == "admin" {
      ReservedLetters(n);
    }
    if |n| == 5 &&
       (n[0] == 'a' || n[0] == 'A') && (n[1] == 'd' || n[1] == 'D') && (n[2] == 'm' || n[2] == 'M') &&
       (n[3] == 'i' || n[3] == 'I') && (n[4] == 'n' || n[4] == 'N') {
      ReservedFromLetters(n);
    }
  }

  // ------------------------------------------------------ substring search

  /** `p` occurs in `t` starting at index `i`. */
  predicate OccursAt(p: string, t: string, i: int) {
    0 <= i && i + |p| <= |t| && t[i..i + |p|] == p
  }

  /** `p` occurs somewhere in `t`: the declarative meaning of a substring search. */
  ghost predicate Contains(p: string, t: string) {
    exists i :: OccursAt(p, t, i)
  }

  /** The scan a regular-expression engine performs for a literal pattern:
      try each start position from left to right. */
  predicate Occurs(p: string, t: string)
    decreases |t|
  {
    (|p| <= |t| && t[..|p|] == p) || (|t| > 0 && Occurs(p, t[1..]))
  }

  /** A slice of the tail is the slice of the whole shifted by one. */
  lemma SliceOfTail(t: string, a: int, b: int)
    requires 0 <= a <= b <= |t| - 1
    ensures t[1..][a..b] == t[a + 1..b + 1]
  {
    assert forall k :: 0 <= k < b - a ==> t[1..][a..b][k] == t[a + 1..b + 1][k];
  }

  /** The scan finds `p` iff `p` occurs at some position of `t`. */
  lemma {:induction false} OccursIff(p: string, t: string)
    ensures Occurs(p, t) <==> Contains(p, t)
  {
    if |p| <= |t| && t[..|p|] == p {
      assert OccursAt(p, t, 0);
    } else if |t| > 0 {
      OccursIff(p, t[1..]);
      if Occurs(p, t[1..]) {
        var k :| OccursAt(p, t[1..], k);
        SliceOfTail(t, k, k + |p|);
        assert OccursAt(p, t, k + 1);
      }
      if i :| OccursAt(p, t, i) {
        assert i != 0;
        SliceOfTail(t, i - 1, i - 1 + |p|);
        assert OccursAt(p, t[1..], i - 1);
      }
    }
  }

  /** `new RegExp(term, 'i')` applied to `text`, for a term without
      metacharacters: the term occurs in the text ignoring ASCII case. */
  predicate MatchesIgnoringCase(term: string, text: string) {
    Occurs(Lower(term), Lower(text))
  }

  /** The empty pattern occurs in every text. */
  lemma EmptyMatchesAll(text: string)
    ensures MatchesIgnoringCase("", text)
  {
    assert Lower("") == "";
    assert Lower(text)[..0] == "";
  }
}
