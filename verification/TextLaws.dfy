/** Laws of trimming, of splitting into words and of letter case. */
module TextLaws {
  import opened Texts
  import opened Wrappers

  predicate AllWhite(s: string) {
    forall i :: 0 <= i < |s| ==> IsWhite(s[i])
  }

  predicate IsWord(s: string) {
    s != "" && forall i :: 0 <= i < |s| ==> !IsWhite(s[i])
  }

  // ----- trimming -----

  lemma {:induction false} TrimStartOfBoth(s: string, t: string)
    ensures TrimStart(s + t) == if TrimStart(s) == "" then TrimStart(t) else TrimStart(s) + t
  {
    if s == "" {
      assert s + t == t;
    } else if IsWhite(s[0]) {
      TrimStartOfBoth(s[1..], t);
      assert (s + t)[1..] == s[1..] + t;
    }
  }

  /** White space at the end makes no difference. */
  lemma TrimIgnoresEnd(s: string, w: char)
    requires IsWhite(w)
    ensures Trim(s + [w]) == Trim(s)
  {
    TrimStartOfBoth(s, [w]);
    assert TrimStart([w]) == TrimStart([w][1..]) == "";
    if TrimStart(s) != "" {
      var t := TrimStart(s) + [w];
      assert t[..|t| - 1] == TrimStart(s);
    }
  }

  /** Nothing to trim. */
  lemma TrimKeeps(s: string)
    requires s == "" || (!IsWhite(s[0]) && !IsWhite(Last(s)))
    ensures Trim(s) == s
  {
  }

  lemma {:induction false} TrimStartOfTrimmed(s: string)
    ensures TrimEnd(TrimStart(s)) == TrimStart(TrimEnd(s))
    decreases |s|
  {
    if s != "" && IsWhite(s[0]) {
      TrimStartOfTrimmed(s[1..]);
      TrimEndBehind(s[0], s[1..]);
      assert s == [s[0]] + s[1..];
    } else {
      assert TrimStart(s) == s;
      if TrimEnd(s) != "" {
        assert TrimEnd(s)[0] == s[0];
      }
    }
  }

  /** A blank in front goes with the rest, or stays in front. */
  lemma {:induction false} TrimEndBehind(w: char, s: string)
    requires IsWhite(w)
    ensures TrimStart(TrimEnd([w] + s)) == TrimStart(TrimEnd(s))
    decreases |s|
  {
    var t := [w] + s;
    if s == "" {
      assert t[..|t| - 1] == "";
    } else if IsWhite(Last(s)) {
      assert Last(t) == Last(s) && t[..|t| - 1] == [w] + s[..|s| - 1];
      TrimEndBehind(w, s[..|s| - 1]);
    } else {
      assert TrimEnd(t) == t && t[1..] == s;
    }
  }

  lemma {:induction false} TrimTwice(s: string)
    ensures TrimEnd(TrimEnd(s)) == TrimEnd(s)
  {
  }

  lemma {:induction false} TrimEndBefore(s: string, t: string)
    requires s != "" && !IsWhite(Last(s))
    ensures TrimEnd(s + t) == s + TrimEnd(t)
  {
    if t == "" {
      assert s + t == s;
    } else if IsWhite(Last(t)) {
      assert (s + t)[..|s + t| - 1] == s + t[..|t| - 1];
      TrimEndBefore(s, t[..|t| - 1]);
    }
  }

  lemma {:induction false} TrimStartBehind(gap: string, s: string)
    requires AllWhite(gap)
    ensures TrimStart(gap + s) == TrimStart(s)
  {
    if gap == "" {
      assert gap + s == s;
    } else {
      assert (gap + s)[1..] == gap[1..] + s;
      TrimStartBehind(gap[1..], s);
    }
  }

  lemma {:induction false} TrimEndOfBlank(tail: string)
    requires AllWhite(tail)
    ensures TrimEnd(tail) == ""
  {
    if tail != "" {
      TrimEndOfBlank(tail[..|tail| - 1]);
    }
  }

  /** Trimming takes the blanks on both sides, and nothing else. */
  lemma TrimBetween(gap: string, s: string, tail: string)
    requires AllWhite(gap) && AllWhite(tail)
    requires s != "" && !IsWhite(s[0]) && !IsWhite(Last(s))
    ensures Trim(gap + s + tail) == s
  {
    assert gap + s + tail == gap + (s + tail);
    TrimStartBehind(gap, s + tail);
    assert (s + tail)[0] == s[0];
    TrimEndBefore(s, tail);
    TrimEndOfBlank(tail);
    assert s + "" == s;
  }

  lemma TrimOfBlank(gap: string)
    requires AllWhite(gap)
    ensures Trim(gap) == ""
  {
    TrimStartBehind(gap, "");
    assert gap + "" == gap;
  }

  lemma BlankIsBlank(s: string)
    ensures Trim(s) == "" <==> AllWhite(s)
  {
    if AllWhite(s) {
      TrimOfBlank(s);
    } else {
      var i :| 0 <= i < |s| && !IsWhite(s[i]);
      TrimAtWord(s[..i], s[i..]);
      assert s == s[..i] + s[i..];
    }
  }

  lemma TrimAtWord(before: string, rest: string)
    requires rest != "" && !IsWhite(rest[0])
    ensures Trim(before + rest) != ""
  {
    TrimStartOfBoth(before, rest);
  }

  // ----- words -----

  lemma NextWordOf(word: string, rest: string)
    requires IsWord(word)
    requires rest == "" || IsWhite(rest[0])
    ensures NextWord(word + rest) == Some((word, rest))
  {
    var s := word + rest;
    assert s[0] == word[0];
    var i := FindWhite(s);
    assert forall k :: 0 <= k < |word| ==> !IsWhite(s[k]) by {
      assert forall k :: 0 <= k < |word| ==> s[k] == word[k];
    }
    assert rest != "" ==> s[|word|] == rest[0];
    assert i == |word|;
    assert s[..i] == word && s[i..] == rest;
  }

  /** The next word, behind blanks. */
  lemma NextWordBehind(gap: string, word: string, rest: string)
    requires AllWhite(gap) && IsWord(word) && (rest == "" || IsWhite(rest[0]))
    ensures NextWord(gap + word + rest) == Some((word, rest))
  {
    assert gap + word + rest == gap + (word + rest);
    TrimStartBehind(gap, word + rest);
    NextWordOf(word, rest);
    assert (word + rest)[0] == word[0];
  }

  lemma NoNextWord(gap: string)
    requires AllWhite(gap)
    ensures NextWord(gap) == None
  {
    TrimStartBehind(gap, "");
    assert gap + "" == gap;
  }

  // ----- letter case -----

  lemma UpperOf(s: string, t: string)
    ensures Upper(s + t) == Upper(s) + Upper(t)
  {
  }

  lemma UpperTwice(s: string)
    ensures Upper(Upper(s)) == Upper(s) && Upper(Lower(s)) == Upper(s)
    ensures Lower(Lower(s)) == Lower(s) && Lower(Upper(s)) == Lower(s)
  {
  }
}
