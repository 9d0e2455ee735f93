/**
 Splitting a string into words at the single-space character and joining
 words back together, with the meaning JavaScript gives to
 `str.split(" ")` and `array.join(" ")`.
 */
module Words {

  /** The separator `revString` splits on and joins with. */
  const Space: char := ' '

  /** True iff no word of `ws` contains the separator. */
  predicate SpaceFree(ws: seq<string>)
  {
    forall i :: 0 <= i < |ws| ==> Space !in ws[i]
  }

  /** `ws.join(" ")`: the words with one space between each neighbouring
      pair; the empty list joins to the empty string. */
  function Join(ws: seq<string>): string
  {
    if |ws| == 0 then ""
    else if |ws| == 1 then ws[0]
    else ws[0] + [Space] + Join(ws[1..])
  }

  /** Regrouping concatenations, kept apart so that the proofs using it
      stay small. */
  lemma Regroup(c: char, a: string, b: string)
    ensures ([c] + a) + [Space] + b == [c] + (a + [Space] + b)
  {
  }

  /** A non-empty string is its first character followed by the rest. */
  lemma Uncons(w: string, x: string)
    requires w != []
    ensures [w[0]] + (w[1..] + x) == w + x
  {
  }

  /** Prefixing a character to the first word prefixes it to the join. */
  lemma JoinPrefixFirst(c: char, t: seq<string>)
    requires |t| >= 1
    ensures Join([[c] + t[0]] + t[1..]) == [c] + Join(t)
  {
    var r := [[c] + t[0]] + t[1..];
    assert r[0] == [c] + t[0] && r[1..] == t[1..];
    if |t| > 1 {
      Regroup(c, t[0], Join(t[1..]));
    }
  }

  /** `s.split(" ")`: the fields between the spaces of `s`, empty ones
      included, so there is always at least one. No field holds a space,
      and joining the fields gives `s` back. */
  function Split(s: string): (r: seq<string>)
    ensures |r| >= 1
    ensures SpaceFree(r)
    ensures Join(r) == s
    decreases |s|
  {
    if s == [] then [""]
    else
      var t := Split(s[1..]);
      assert s == [s[0]] + s[1..];
      if s[0] == Space then
        assert ([""] + t)[1..] == t;
        [""] + t
      else
        JoinPrefixFirst(s[0], t);
        [[s[0]] + t[0]] + t[1..]
  }

  /** There is one field more than `s` has spaces. */
  lemma {:induction false} SplitCount(s: string)
    ensures |Split(s)| == multiset(s)[Space] + 1
    decreases |s|
  {
    if s != [] {
      SplitCount(s[1..]);
      assert s == [s[0]] + s[1..];
    }
  }

  /** A string without spaces is a single field; one with a space is not. */
  lemma SplitSingle(s: string)
    ensures Space !in s <==> Split(s) == [s]
  {
  }

  /** Splitting a space-free word followed by anything glues the word
      onto the first field of the rest. */
  lemma {:induction false} SplitAfterWord(w: string, rest: string)
    requires Space !in w
    ensures Split(w + rest) == [w + Split(rest)[0]] + Split(rest)[1..]
    decreases |w|
  {
    var u := Split(rest);
    if w == [] {
      assert w + rest == rest && w + u[0] == u[0];
      assert [u[0]] + u[1..] == u;
    } else {
      var s, c := w + rest, w[0];
      assert s[0] == c && c != Space;
      assert s[1..] == w[1..] + rest;
      SplitAfterWord(w[1..], rest);
      var t := Split(s[1..]);
      assert t[0] == w[1..] + u[0] && t[1..] == u[1..];
      assert Split(s) == [[c] + t[0]] + t[1..];
      Uncons(w, u[0]);
    }
  }

  /** Split undoes Join on any non-empty list of space-free words. */
  lemma {:induction false} SplitJoin(ws: seq<string>)
    requires |ws| >= 1 && SpaceFree(ws)
    ensures Split(Join(ws)) == ws
    decreases |ws|
  {
    if |ws| == 1 {
      SplitAfterWord(ws[0], "");
      assert ws[0] + "" == ws[0];
    } else {
      var w, rest := ws[0], Join(ws[1..]);
      SplitJoin(ws[1..]);
      var v := Split([Space] + rest);
      assert v == [""] + ws[1..] by {
        assert ([Space] + rest)[1..] == rest;
      }
      assert Join(ws) == w + ([Space] + rest);
      SplitAfterWord(w, [Space] + rest);
      assert w + v[0] == w && v[1..] == ws[1..];
      assert ws == [w] + ws[1..];
    }
  }

  /** All characters of the words, counted with multiplicity. */
  function Letters(ws: seq<string>): multiset<char>
  {
    if ws == [] then multiset{} else multiset(ws[0]) + Letters(ws[1..])
  }

  /** Letters distributes over concatenation of word lists. */
  lemma {:induction false} LettersAppend(a: seq<string>, b: seq<string>)
    ensures Letters(a + b) == Letters(a) + Letters(b)
    decreases |a|
  {
    if a == [] {
      assert a + b == b;
    } else {
      assert (a + b)[1..] == a[1..] + b;
      LettersAppend(a[1..], b);
    }
  }

  /** The characters of a joined string are the letters of its words
      plus one space per gap between them. */
  lemma {:induction false} JoinLetters(ws: seq<string>)
    requires |ws| >= 1
    ensures multiset(Join(ws)) == Letters(ws) + multiset{}[Space := |ws| - 1]
    decreases |ws|
  {
    if |ws| > 1 {
      JoinLetters(ws[1..]);
    }
  }
}
