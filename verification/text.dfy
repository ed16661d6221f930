/**
 The string primitives the document-type classifier is built on: ASCII
 A-Z lower-casing (the ASCII part of Python's `str.lower`), splitting on
 whitespace (Python's `str.split()` with no argument) and substring
 containment (Python's `kw in text`).
 */
module Text {

  /* ---------------------------------------------------------------------- */
  /* Case                                                                    */
  /* ---------------------------------------------------------------------- */

  predicate IsUpper(c: char) {
    'A' <= c <= 'Z'
  }

  /** No ASCII upper-case letter anywhere in `s`. */
  predicate IsLowerCase(s: string) {
    forall i :: 0 <= i < |s| ==> !IsUpper(s[i])
  }

  /** Lower-cases one ASCII letter; every other character is left alone. */
  function LowerChar(c: char): (r: char)
    ensures !IsUpper(r)
    ensures IsUpper(c) ==> 'a' <= r <= 'z' && r as int - c as int == 'a' as int - 'A' as int
    ensures !IsUpper(c) ==> r == c
  {
    if IsUpper(c) then (c as int - 'A' as int + 'a' as int) as char else c
  }

  /** ASCII A-Z lower-casing: the part of Python's `text.lower()` that this
      model covers. Every other character is left unchanged. */
  function Lower(s: string): (r: string)
    ensures |r| == |s|
    ensures forall i :: 0 <= i < |s| ==> r[i] == LowerChar(s[i])
  {
    if |s| == 0 then [] else [LowerChar(s[0])] + Lower(s[1..])
  }

  /** The result of `Lower` has no upper-case letter, and text without one is
      its own lower-case form. */
  lemma LowerIsLowerCase(s: string)
    ensures IsLowerCase(Lower(s))
    ensures IsLowerCase(s) <==> Lower(s) == s
  {
    if !IsLowerCase(s) {
      var i :| 0 <= i < |s| && IsUpper(s[i]);
      assert Lower(s)[i] != s[i];
    }
  }

  /** Lower-casing commutes with taking a suffix. */
  lemma LowerDrop(s: string, n: nat)
    requires n <= |s|
    ensures Lower(s)[n..] == Lower(s[n..])
  {
  }

  /** Lower-casing twice is lower-casing once. */
  lemma LowerIdempotent(s: string)
    ensures Lower(Lower(s)) == Lower(s)
  {
    LowerIsLowerCase(s);
    LowerIsLowerCase(Lower(s));
  }

  /* ---------------------------------------------------------------------- */
  /* Whitespace and words                                                    */
  /* ---------------------------------------------------------------------- */

  /** The characters Python's `str.split()` treats as separators
      (exactly those for which `str.isspace()` holds). */
  predicate IsSpace(c: char) {
    || c == ' ' || c == '\t' || c == '\n' || c == '\r'
    || c == '\U{000B}' || c == '\U{000C}'
    || '\U{001C}' <= c <= '\U{001F}'
    || c == '\U{0085}' || c == '\U{00A0}' || c == '\U{1680}'
    || '\U{2000}' <= c <= '\U{200A}'
    || c == '\U{2028}' || c == '\U{2029}' || c == '\U{202F}'
    || c == '\U{205F}' || c == '\U{3000}'
  }

  /** Every character of `s` is whitespace (the empty string included). */
  predicate IsBlank(s: string) {
    forall i :: 0 <= i < |s| ==> IsSpace(s[i])
  }

  /** What `str.split()` can return as one element: a non-empty run of
      non-whitespace characters. */
  predicate IsWord(w: string) {
    |w| > 0 && forall i :: 0 <= i < |w| ==> !IsSpace(w[i])
  }

  lemma LowerKeepsSpaces(s: string)
    ensures forall i :: 0 <= i < |s| ==> (IsSpace(Lower(s)[i]) <==> IsSpace(s[i]))
  {
  }

  /** Length of the longest prefix of `s` that holds no whitespace. */
  function WordEnd(s: string): (n: nat)
    ensures n <= |s|
    ensures forall i :: 0 <= i < n ==> !IsSpace(s[i])
    ensures n == |s| || IsSpace(s[n])
  {
    if |s| == 0 || IsSpace(s[0]) then 0 else 1 + WordEnd(s[1..])
  }

  /** `s.split()`: the maximal whitespace-free runs of `s`, in order. */
  function Split(s: string): (ws: seq<string>)
    ensures forall j :: 0 <= j < |ws| ==> IsWord(ws[j])
    ensures |ws| == 0 <==> IsBlank(s)
    decreases |s|
  {
    if |s| == 0 then []
    else if IsSpace(s[0]) then Split(s[1..])
    else
      var n := WordEnd(s);
      [s[..n]] + Split(s[n..])
  }

  /** `len(s.split())`. */
  function WordCount(s: string): (n: nat)
    ensures n == 0 <==> IsBlank(s)
  {
    |Split(s)|
  }

  /** Words joined by single spaces, `' '.join(ws)`. */
  function JoinWords(ws: seq<string>): string {
    if |ws| == 0 then ""
    else if |ws| == 1 then ws[0]
    else ws[0] + " " + JoinWords(ws[1..])
  }

  lemma {:induction false} WordEndOfWord(w: string, rest: string)
    requires IsWord(w)
    requires |rest| == 0 || IsSpace(rest[0])
    ensures WordEnd(w + rest) == |w|
    decreases |w|
  {
    var s := w + rest;
    if |w| == 1 {
      assert s[1..] == rest;
      if |rest| > 0 {
        assert IsSpace(s[1..][0]);
      }
    } else {
      assert s[1..] == w[1..] + rest;
      WordEndOfWord(w[1..], rest);
    }
  }

  /** Splitting a space-joined list of words gives the words back. */
  lemma {:induction false} SplitJoinWords(ws: seq<string>)
    requires forall j :: 0 <= j < |ws| ==> IsWord(ws[j])
    ensures Split(JoinWords(ws)) == ws
    decreases |ws|
  {
    if |ws| == 0 {
    } else if |ws| == 1 {
      var w := ws[0];
      WordEndOfWord(w, "");
      assert w + "" == w;
      assert w[|w|..] == "";
      assert w[..|w|] == w;
    } else {
      var w := ws[0];
      var rest := JoinWords(ws[1..]);
      var s := w + " " + rest;
      assert s == w + (" " + rest);
      WordEndOfWord(w, " " + rest);
      assert s[..|w|] == w;
      assert s[|w|..] == " " + rest;
      assert (" " + rest)[1..] == rest;
      SplitJoinWords(ws[1..]);
      assert Split(s) == [w] + Split(" " + rest);
      assert ws == [w] + ws[1..];
    }
  }

  /** A single word splits into itself. */
  lemma SplitWord(w: string)
    requires IsWord(w)
    ensures Split(w) == [w]
  {
    SplitJoinWords([w]);
  }

  /** A word that ends before the end of `a` is not lengthened by appending. */
  lemma {:induction false} WordEndAppend(a: string, b: string)
    requires WordEnd(a) < |a|
    ensures WordEnd(a + b) == WordEnd(a)
    decreases |a|
  {
    if !IsSpace(a[0]) {
      assert (a + b)[1..] == a[1..] + b;
      WordEndAppend(a[1..], b);
    }
  }

  /** `Split` of text that starts with whitespace skips it. */
  lemma SplitSpaceHead(s: string)
    requires |s| > 0 && IsSpace(s[0])
    ensures Split(s) == Split(s[1..])
  {
  }

  /** `Split` of text that starts with a word takes that word first. */
  lemma SplitWordHead(s: string)
    requires |s| > 0 && !IsSpace(s[0])
    ensures Split(s) == [s[..WordEnd(s)]] + Split(s[WordEnd(s)..])
  {
  }

  lemma SplitAppendSpace(a: string, b: string)
    requires |a| > 0 && IsSpace(a[0])
    requires Split(a[1..] + b) == Split(a[1..]) + Split(b)
    ensures Split(a + b) == Split(a) + Split(b)
  {
    var s := a + b;
    assert s[0] == a[0];
    assert s[1..] == a[1..] + b;
    SplitSpaceHead(a);
    SplitSpaceHead(s);
  }

  /** A first word that ends inside `a` is also the first word of `a + b`. */
  lemma SplitWordAppend(a: string, b: string)
    requires |a| > 0 && !IsSpace(a[0]) && WordEnd(a) < |a|
    ensures Split(a + b) == [a[..WordEnd(a)]] + Split(a[WordEnd(a)..] + b)
  {
    var s, n := a + b, WordEnd(a);
    assert s[0] == a[0];
    WordEndAppend(a, b);
    assert s[..n] == a[..n];
    assert s[n..] == a[n..] + b;
    SplitWordHead(s);
  }

  lemma SplitAppendWord(a: string, b: string)
    requires |a| > 0 && !IsSpace(a[0]) && WordEnd(a) < |a|
    requires Split(a[WordEnd(a)..] + b) == Split(a[WordEnd(a)..]) + Split(b)
    ensures Split(a + b) == Split(a) + Split(b)
  {
    SplitWordAppend(a, b);
    SplitWordHead(a);
    ConsAppend(a[..WordEnd(a)], Split(a[WordEnd(a)..]), Split(b));
  }

  lemma ConsAppend<T>(x: T, u: seq<T>, v: seq<T>)
    ensures [x] + (u + v) == ([x] + u) + v
  {
  }

  lemma SplitAppendWhole(a: string, b: string)
    requires IsWord(a) && |b| > 0 && IsSpace(b[0])
    ensures Split(a + b) == Split(a) + Split(b)
  {
    var s := a + b;
    assert s[0] == a[0];
    WordEndOfWord(a, b);
    assert s[..|a|] == a;
    assert s[|a|..] == b;
    SplitWord(a);
    SplitWordHead(s);
  }

  /** Splitting text that is cut at whitespace is splitting each piece. With
      `SplitWord` and the blank case of `Split`'s contract this fixes the
      result on every input: the whitespace-separated runs, in order. */
  lemma {:induction false} SplitAppend(a: string, b: string)
    requires |a| == 0 || |b| == 0 || IsSpace(a[|a| - 1]) || IsSpace(b[0])
    ensures Split(a + b) == Split(a) + Split(b)
    decreases |a|
  {
    if |a| == 0 {
      assert a + b == b;
    } else if |b| == 0 {
      assert a + b == a;
    } else if IsSpace(a[0]) {
      SplitAppend(a[1..], b);
      SplitAppendSpace(a, b);
    } else if WordEnd(a) < |a| {
      SplitAppend(a[WordEnd(a)..], b);
      SplitAppendWord(a, b);
    } else {
      SplitAppendWhole(a, b);
    }
  }

  /** Lower-casing does not move word boundaries. */
  lemma {:induction false} WordEndLower(s: string)
    ensures WordEnd(Lower(s)) == WordEnd(s)
    decreases |s|
  {
    if |s| > 0 {
      LowerDrop(s, 1);
      WordEndLower(s[1..]);
    }
  }

  /** Lower-casing before splitting, as the classifier does, leaves the word
      count unchanged. */
  lemma {:induction false} WordCountLower(s: string)
    ensures WordCount(Lower(s)) == WordCount(s)
    decreases |s|
  {
    if |s| > 0 {
      var l := Lower(s);
      if IsSpace(s[0]) {
        LowerDrop(s, 1);
        WordCountLower(s[1..]);
      } else {
        WordEndLower(s);
        var n := WordEnd(s);
        LowerDrop(s, n);
        WordCountLower(s[n..]);
      }
    }
  }

  /* ---------------------------------------------------------------------- */
  /* Substrings                                                              */
  /* ---------------------------------------------------------------------- */

  /** `k` occurs in `t` starting at index `i`. */
  ghost predicate OccursAt(t: string, k: string, i: int) {
    0 <= i && i + |k| <= |t| && t[i..i + |k|] == k
  }

  /** Python's `k in t`: plain substring containment, not whole words. It
      holds exactly when `k` occurs at some index of `t`; the empty string
      occurs everywhere. */
  function Contains(t: string, k: string): (r: bool)
    ensures r <==> exists i :: OccursAt(t, k, i)
    decreases |t|
  {
    if |k| <= |t| && t[..|k|] == k then
      OccursAtStart(t, k);
      true
    else if |t| == 0 then false
    else
      OccursStep(t, k);
      Contains(t[1..], k)
  }

  lemma OccursAtStart(t: string, k: string)
    requires |k| <= |t| && t[..|k|] == k
    ensures OccursAt(t, k, 0)
  {
    assert t[0..|k|] == t[..|k|];
  }

  /** When `k` is not a prefix of `t`, it occurs in `t` exactly when it occurs
      in the tail of `t`. */
  lemma OccursStep(t: string, k: string)
    requires |t| > 0 && !(|k| <= |t| && t[..|k|] == k)
    ensures (exists i :: OccursAt(t, k, i)) <==> (exists i :: OccursAt(t[1..], k, i))
  {
    forall i | OccursAt(t, k, i)
      ensures 1 <= i && OccursAt(t[1..], k, i - 1)
    {
      assert t[0..|k|] == t[..|k|];
      assert t[1..][i - 1..i - 1 + |k|] == t[i..i + |k|];
    }
    forall i | OccursAt(t[1..], k, i)
      ensures OccursAt(t, k, i + 1)
    {
      assert t[1..][i..i + |k|] == t[i + 1..i + 1 + |k|];
    }
  }

  /** Where `Contains` succeeds, `k` occurs. */
  lemma ContainsOccurs(t: string, k: string) returns (i: nat)
    requires Contains(t, k)
    ensures OccursAt(t, k, i)
  {
    i :| OccursAt(t, k, i);
  }

  /** Wherever `k` occurs, `Contains` finds it. */
  lemma OccursContains(t: string, k: string, i: nat)
    requires OccursAt(t, k, i)
    ensures Contains(t, k)
  {
  }

  /** A substring of `t` is still a substring once text is appended to `t`
      or put in front of it. */
  lemma ContainsInConcat(t: string, u: string, k: string)
    ensures Contains(t, k) ==> Contains(t + u, k)
    ensures Contains(u, k) ==> Contains(t + u, k)
  {
    if Contains(t, k) {
      var i :| OccursAt(t, k, i);
      assert (t + u)[i..i + |k|] == t[i..i + |k|];
      assert OccursAt(t + u, k, i);
    }
    if Contains(u, k) {
      var i :| OccursAt(u, k, i);
      assert (t + u)[|t| + i..|t| + i + |k|] == u[i..i + |k|];
      assert OccursAt(t + u, k, |t| + i);
    }
  }

  /** Blank text contains no string that starts with a non-space character. */
  lemma BlankContainsNoWord(t: string, k: string)
    requires IsBlank(t)
    requires |k| > 0 && !IsSpace(k[0])
    ensures !Contains(t, k)
  {
    forall i | 0 <= i && i + |k| <= |t|
      ensures !OccursAt(t, k, i)
    {
      assert t[i..i + |k|][0] == t[i];
    }
  }
}
