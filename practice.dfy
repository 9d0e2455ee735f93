/**
 `revString`: reverse the order of the space-separated words of a string.
 The string is split on single spaces, the resulting array is reversed in
 place by swapping its two ends and moving them towards each other, and the
 array is joined back with single spaces.
 */
module Practice {
  import opened Words

  /** The list read back to front. */
  function Reversed<T>(s: seq<T>): seq<T>
  {
    seq(|s|, i requires 0 <= i < |s| => s[|s| - 1 - i])
  }

  /** A list that holds, at every index, the mirrored element of another
      list of the same length is that list reversed. */
  lemma IsReversed<T>(a: seq<T>, b: seq<T>)
    requires |a| == |b|
    requires forall k :: 0 <= k < |a| ==> a[k] == b[|b| - 1 - k]
    ensures a == Reversed(b)
  {
  }

  /** What `revString(s)` returns: the words of `s` joined in reverse order. */
  function ReverseWordOrder(s: string): string
  {
    Join(Reversed(Split(s)))
  }

  /** The swap loop of `revString`: two indices start at the ends of the
      array and move towards each other, exchanging the elements they point
      at, until they meet or cross. */
  method ReverseInPlace<T>(a: array<T>)
    modifies a
    ensures a[..] == Reversed(old(a[..]))
  {
    var left := 0;
    var right := a.Length - 1;
    while left < right
      invariant 0 <= left <= right + 1 <= a.Length
      invariant left + right == a.Length - 1
      invariant forall k :: 0 <= k < left ==> a[k] == old(a[a.Length - 1 - k])
      invariant forall k :: right < k < a.Length ==> a[k] == old(a[a.Length - 1 - k])
      invariant forall k :: left <= k <= right ==> a[k] == old(a[k])
      decreases right - left
    {
      a[left], a[right] := a[right], a[left];
      left := left + 1;
      right := right - 1;
    }
    IsReversed(a[..], old(a[..]));
  }

  /** `revString`: split on spaces into a fresh array, reverse the array in
      place, join with spaces. */
  method RevString(str: string) returns (r: string)
    ensures r == ReverseWordOrder(str)
    ensures Split(r) == Reversed(Split(str))
    ensures multiset(r) == multiset(str)
  {
    var fields := Split(str);
    var words := new string[|fields|](i requires 0 <= i < |fields| => fields[i]);
    assert words[..] == fields;
    ReverseInPlace(words);
    r := Join(words[..]);
    WordsReversed(str);
    SameCharacters(str);
  }

  /** Reversing twice gives the list back. */
  lemma ReversedTwice<T>(s: seq<T>)
    ensures Reversed(Reversed(s)) == s
  {
  }

  /** Reversing a list of space-free words leaves them space-free. */
  lemma ReversedSpaceFree(ws: seq<string>)
    requires SpaceFree(ws)
    ensures SpaceFree(Reversed(ws))
  {
  }

  /** The words of the result are the words of the input in reverse order:
      word `i` of the output is word `n-1-i` of the input, and there are as
      many of them. */
  lemma {:induction false} WordsReversed(s: string)
    ensures Split(ReverseWordOrder(s)) == Reversed(Split(s))
    ensures |Split(ReverseWordOrder(s))| == |Split(s)|
    ensures forall i :: 0 <= i < |Split(s)| ==>
              Split(ReverseWordOrder(s))[i] == Split(s)[|Split(s)| - 1 - i]
  {
    ReversedSpaceFree(Split(s));
    SplitJoin(Reversed(Split(s)));
  }

  /** With an odd number of words the middle one keeps its place. */
  lemma MiddleWordStays(s: string)
    requires |Split(s)| % 2 == 1
    ensures var n := |Split(s)|;
      |Split(ReverseWordOrder(s))| == n && Split(ReverseWordOrder(s))[n / 2] == Split(s)[n / 2]
  {
    WordsReversed(s);
  }

  /** A string with no space, the empty string included, comes back as it is. */
  lemma NoSpaceUnchanged(s: string)
    requires Space !in s
    ensures ReverseWordOrder(s) == s
  {
  }

  /** Reversing the word order twice gives the original string. */
  lemma {:induction false} ReverseWordOrderTwice(s: string)
    ensures ReverseWordOrder(ReverseWordOrder(s)) == s
  {
    WordsReversed(s);
    ReversedTwice(Split(s));
  }

  /** Letters of a reversed word list are the letters of the list. */
  lemma {:induction false} LettersReversed(ws: seq<string>)
    ensures Letters(Reversed(ws)) == Letters(ws)
    decreases |ws|
  {
    if ws != [] {
      LettersReversed(ws[1..]);
      assert Reversed(ws) == Reversed(ws[1..]) + [ws[0]];
      LettersAppend(Reversed(ws[1..]), [ws[0]]);
      assert [ws[0]][1..] == [];
    }
  }

  /** The result is a rearrangement of the input's characters: it holds
      every character, spaces included, as often as the input does, and so
      has the same length. */
  lemma {:induction false} SameCharacters(s: string)
    ensures multiset(ReverseWordOrder(s)) == multiset(s)
    ensures |ReverseWordOrder(s)| == |s|
  {
    var ws := Split(s);
    JoinLetters(ws);
    JoinLetters(Reversed(ws));
    LettersReversed(ws);
    assert |multiset(ReverseWordOrder(s))| == |ReverseWordOrder(s)|;
  }
}
