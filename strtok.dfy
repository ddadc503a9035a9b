/**
 * strtok over the delimiter set the configuration reader passes (space, tab
 * and newline): each call skips delimiters, returns the longest run of other
 * characters, and resumes after the delimiter that ended the run.
 */
module Strtok {
  import opened Wrappers

  predicate IsDelim(c: char)
  {
    c == ' ' || c == '\t' || c == '\n'
  }

  /** A non-empty run of characters that are not delimiters. */
  predicate IsWord(w: string)
  {
    w != [] && forall i :: 0 <= i < |w| ==> !IsDelim(w[i])
  }

  function SkipDelims(s: string): (r: string)
    ensures |r| <= |s|
    ensures r == [] || !IsDelim(r[0])
    decreases |s|
  {
    if |s| > 0 && IsDelim(s[0]) then SkipDelims(s[1..]) else s
  }

  /** Length of the run of non-delimiters that starts s. */
  function RunLen(s: string): (n: nat)
    ensures n <= |s|
    ensures forall i :: 0 <= i < n ==> !IsDelim(s[i])
    ensures n < |s| ==> IsDelim(s[n])
  {
    if |s| == 0 || IsDelim(s[0]) then 0 else 1 + RunLen(s[1..])
  }

  /** One strtok call on the unscanned text s: the token and the text after it, or None. */
  function NextToken(s: string): (r: Option<(string, string)>)
    ensures r.Some? ==> IsWord(r.value.0) && |r.value.1| < |s|
  {
    var u := SkipDelims(s);
    if u == [] then None
    else
      var n := RunLen(u);
      assert n > 0;
      Some((u[..n], if n < |u| then u[n + 1..] else []))
  }

  /** The tokens successive strtok calls return. */
  function Tokens(s: string): seq<string>
    decreases |s|
  {
    match NextToken(s)
    case None => []
    case Some((t, rest)) => [t] + Tokens(rest)
  }

  /** Every token is a non-empty run of non-delimiters. */
  lemma {:induction false} TokensAreWords(s: string)
    ensures forall i :: 0 <= i < |Tokens(s)| ==> IsWord(Tokens(s)[i])
    decreases |s|
  {
    TokensUnfold(s);
    if NextToken(s).Some? {
      TokensAreWords(NextToken(s).value.1);
    }
  }

  lemma {:induction false} SkipDelimsAppend(a: string, b: string)
    ensures SkipDelims(a + b) == if SkipDelims(a) == [] then SkipDelims(b) else SkipDelims(a) + b
    decreases |a|
  {
    if |a| == 0 {
      assert a + b == b;
    } else {
      assert (a + b)[1..] == a[1..] + b;
      assert (a + b)[0] == a[0];
      if IsDelim(a[0]) {
        SkipDelimsAppend(a[1..], b);
      }
    }
  }

  lemma {:induction false} RunLenAppend(u: string, b: string)
    ensures RunLen(u + b) == if RunLen(u) < |u| then RunLen(u) else |u| + RunLen(b)
    decreases |u|
  {
    if |u| == 0 {
      assert u + b == b;
    } else {
      assert (u + b)[1..] == u[1..] + b;
      assert (u + b)[0] == u[0];
      if !IsDelim(u[0]) {
        RunLenAppend(u[1..], b);
      }
    }
  }

  lemma TokensUnfold(s: string)
    ensures NextToken(s).None? ==> Tokens(s) == []
    ensures NextToken(s).Some? ==> Tokens(s) == [NextToken(s).value.0] + Tokens(NextToken(s).value.1)
  {
  }

  /** When a holds no token, strtok on a + [d] + b starts on b. */
  lemma NextTokenConcatNone(a: string, d: char, b: string)
    requires IsDelim(d) && NextToken(a).None?
    ensures NextToken(a + [d] + b) == NextToken(b)
  {
    var s := a + [d] + b;
    assert s == a + ([d] + b);
    SkipDelimsAppend(a, [d] + b);
    NextTokenSkips(s);
    SkipDelimsAppend([d], b);
    assert [d][1..] == [];
    NextTokenSkips(b);
  }

  /** When a holds a token, strtok on a + [d] + b returns it, and resumes where it resumes on a (or at b). */
  lemma NextTokenConcatSome(a: string, d: char, b: string)
    requires IsDelim(d) && NextToken(a).Some?
    ensures NextToken(a + [d] + b).Some?
    ensures NextToken(a + [d] + b).value.0 == NextToken(a).value.0
    ensures NextToken(a + [d] + b).value.1 == NextToken(a).value.1 + [d] + b ||
      (NextToken(a).value.1 == [] && NextToken(a + [d] + b).value.1 == b)
  {
    var s := a + [d] + b;
    assert s == a + ([d] + b);
    SkipDelimsAppend(a, [d] + b);
    NextTokenSkips(s);
    NextTokenSkips(a);
    var u := SkipDelims(a);
    assert SkipDelims(s) == u + [d] + b;
    NextTokenAfterWord(u, d, b);
  }

  /** strtok first skips delimiters, so skipping them beforehand changes nothing. */
  lemma NextTokenSkips(s: string)
    ensures SkipDelims(SkipDelims(s)) == SkipDelims(s)
    ensures NextToken(s) == NextToken(SkipDelims(s))
  {
  }

  /** strtok once its scan has reached a non-delimiter of u, with [d] + b following u. */
  lemma NextTokenAfterWord(u: string, d: char, b: string)
    requires IsDelim(d) && u != [] && !IsDelim(u[0])
    ensures SkipDelims(u + [d] + b) == u + [d] + b
    ensures NextToken(u).Some? && NextToken(u + [d] + b).Some?
    ensures NextToken(u + [d] + b).value.0 == NextToken(u).value.0
    ensures NextToken(u + [d] + b).value.1 == NextToken(u).value.1 + [d] + b ||
            (NextToken(u).value.1 == [] && NextToken(u + [d] + b).value.1 == b)
  {
    var v := u + [d] + b;
    assert v == u + ([d] + b);
    var n := RunLen(u);
    RunLenAppend(u, [d] + b);
    assert v[..n] == u[..n];
    if n < |u| {
      assert v[n + 1..] == u[n + 1..] + [d] + b;
    } else {
      assert v[n + 1..] == b;
    }
  }

  /** Joining two texts with a delimiter joins their token lists. */
  lemma {:induction false} TokensConcat(a: string, d: char, b: string)
    requires IsDelim(d)
    ensures Tokens(a + [d] + b) == Tokens(a) + Tokens(b)
    decreases |a|
  {
    var s := a + [d] + b;
    TokensUnfold(a);
    TokensUnfold(s);
    if NextToken(a).Some? {
      NextTokenConcatSome(a, d, b);
      var t, r := NextToken(a).value.0, NextToken(a).value.1;
      var r' := NextToken(s).value.1;
      var tr, tb := Tokens(r), Tokens(b);
      if r' == r + [d] + b {
        TokensConcat(r, d, b);
      } else {
        TokensUnfold(r);
      }
      assert Tokens(r') == tr + tb;
      calc {
        Tokens(s);
        [t] + Tokens(r');
        [t] + (tr + tb);
        ([t] + tr) + tb;
        Tokens(a) + tb;
      }
    } else {
      NextTokenConcatNone(a, d, b);
      TokensUnfold(b);
    }
  }

  /** A single word is its own only token. */
  lemma TokensOfWord(w: string)
    requires IsWord(w)
    ensures Tokens(w) == [w]
  {
    assert SkipDelims(w) == w;
    assert RunLen(w) == |w|;
    assert w[..|w|] == w;
    assert NextToken([]).None?;
  }

  /** Words separated by single spaces, as a configuration line is written. */
  function JoinWords(ws: seq<string>): string
  {
    if |ws| == 0 then ""
    else if |ws| == 1 then ws[0]
    else ws[0] + " " + JoinWords(ws[1..])
  }

  /** Tokenising words joined by spaces gives the words back. */
  lemma {:induction false} TokensOfJoinWords(ws: seq<string>)
    requires forall i :: 0 <= i < |ws| ==> IsWord(ws[i])
    ensures Tokens(JoinWords(ws)) == ws
    decreases |ws|
  {
    if |ws| == 0 {
      assert NextToken("").None?;
    } else if |ws| == 1 {
      TokensOfWord(ws[0]);
    } else {
      var w, rest := ws[0], ws[1..];
      var j := JoinWords(rest);
      assert forall i :: 0 <= i < |rest| ==> rest[i] == ws[i + 1];
      TokensOfWord(w);
      TokensOfJoinWords(rest);
      TokensConcat(w, ' ', j);
      calc {
        Tokens(JoinWords(ws));
        { assert JoinWords(ws) == w + [' '] + j; }
        Tokens(w + [' '] + j);
        Tokens(w) + Tokens(j);
        [w] + rest;
        ws;
      }
    }
  }

  lemma {:induction false} SkipDelimsAvoids(s: string, c: char)
    requires c !in s
    ensures c !in SkipDelims(s)
    decreases |s|
  {
    if |s| > 0 && IsDelim(s[0]) {
      assert forall x :: x in s[1..] ==> x in s;
      SkipDelimsAvoids(s[1..], c);
    }
  }

  lemma NextTokenAvoids(s: string, c: char)
    requires c !in s
    ensures NextToken(s).Some? ==> c !in NextToken(s).value.0 && c !in NextToken(s).value.1
  {
    var u := SkipDelims(s);
    SkipDelimsAvoids(s, c);
    if u != [] {
      var n := RunLen(u);
      assert forall x :: x in u[..n] ==> x in u;
      if n < |u| {
        assert forall x :: x in u[n + 1..] ==> x in u;
      }
    }
  }

  /** A character absent from the text (a NUL, say) is absent from every token. */
  lemma {:induction false} TokensAvoid(s: string, c: char)
    requires c !in s
    ensures forall i :: 0 <= i < |Tokens(s)| ==> c !in Tokens(s)[i]
    decreases |s|
  {
    TokensUnfold(s);
    NextTokenAvoids(s, c);
    if NextToken(s).Some? {
      TokensAvoid(NextToken(s).value.1, c);
    }
  }
}
