/** NUL-terminated character buffers and the in-place reversal `strrev`
    that utilisation.c supplies because its platform library lacks one. */
module CString {

  /** A C `char`, kept as its eight bits so that the XOR exchange is exact. */
  type Char = bv8

  /** The string terminator. */
  const NUL: Char := 0

  /** C's strlen: the index of the first NUL of a buffer that holds one. */
  function StrLen(s: seq<Char>): (n: nat)
    requires NUL in s
    ensures n < |s| && s[n] == NUL
    ensures forall i :: 0 <= i < n ==> s[i] != NUL
  {
    if s[0] == NUL then 0
    else
      assert s == [s[0]] + s[1..];
      1 + StrLen(s[1..])
  }

  /** The first NUL is the only position with a NUL and no NUL before it. */
  lemma StrLenIs(s: seq<Char>, n: nat)
    requires n < |s| && s[n] == NUL
    requires forall i :: 0 <= i < n ==> s[i] != NUL
    ensures StrLen(s) == n
  {
  }

  /** The characters of a NUL-terminated string, without the terminator. */
  function Text(s: seq<Char>): (t: seq<Char>)
    requires NUL in s
    ensures |t| < |s| && NUL !in t
    ensures t + [NUL] == s[..|t| + 1]
  {
    s[..StrLen(s)]
  }

  /** The reference reversal of a sequence, built back to front. */
  function Reversed(s: seq<Char>): (r: seq<Char>)
    ensures |r| == |s|
  {
    if s == [] then [] else Reversed(s[1..]) + [s[0]]
  }

  /** Position k of the reversal holds the character at the mirrored position. */
  lemma {:induction false} ReversedAt(s: seq<Char>, k: nat)
    requires k < |s|
    ensures Reversed(s)[k] == s[|s| - 1 - k]
  {
    if k < |s| - 1 {
      ReversedAt(s[1..], k);
    }
  }

  /** Reversing twice gives back the original sequence. */
  lemma ReversedTwice(s: seq<Char>)
    ensures Reversed(Reversed(s)) == s
  {
    forall k | 0 <= k < |s|
      ensures Reversed(Reversed(s))[k] == s[k]
    {
      ReversedAt(Reversed(s), k);
      ReversedAt(s, |s| - 1 - k);
    }
  }

  /** Reversal moves characters and neither adds nor drops any. */
  lemma ReversedSameChars(s: seq<Char>)
    ensures multiset(Reversed(s)) == multiset(s)
  {
    if s != [] {
      ReversedSameChars(s[1..]);
      assert s == [s[0]] + s[1..];
    }
  }

  /** The buffer that strrev leaves: the text reversed, the terminator and
      everything after it as before. */
  function ReverseCString(s: seq<Char>): (r: seq<Char>)
    requires NUL in s
  {
    Reversed(Text(s)) + s[StrLen(s)..]
  }

  /** Index by index: inside the text, position k holds the character from
      n - 1 - k; from the terminator on, nothing moves. */
  lemma ReverseCStringAt(s: seq<Char>, k: nat)
    requires NUL in s && k < |s|
    ensures |ReverseCString(s)| == |s|
    ensures ReverseCString(s)[k] == if k < StrLen(s) then s[StrLen(s) - 1 - k] else s[k]
  {
    if k < StrLen(s) {
      ReversedAt(Text(s), k);
    }
  }

  /** The string keeps its length: the terminator stays where it was. */
  lemma ReverseCStringKeepsLength(s: seq<Char>)
    requires NUL in s
    ensures NUL in ReverseCString(s)
    ensures StrLen(ReverseCString(s)) == StrLen(s)
    ensures Text(ReverseCString(s)) == Reversed(Text(s))
  {
    var n := StrLen(s);
    var r := ReverseCString(s);
    ReversedSameChars(Text(s));
    assert NUL !in multiset(Reversed(Text(s)));
    forall i | 0 <= i < n
      ensures r[i] != NUL
    {
      assert r[i] in multiset(Reversed(Text(s)));
    }
    assert r[n] == NUL;
    StrLenIs(r, n);
  }

  /** Applying strrev twice restores the buffer. */
  lemma ReverseCStringTwice(s: seq<Char>)
    requires NUL in s
    ensures NUL in ReverseCString(s)
    ensures ReverseCString(ReverseCString(s)) == s
  {
    ReverseCStringKeepsLength(s);
    ReversedTwice(Text(s));
    assert s == Text(s) + s[StrLen(s)..];
  }

  /** The empty string is left exactly as it was. */
  lemma ReverseCStringEmpty(s: seq<Char>)
    requires NUL in s && s[0] == NUL
    ensures ReverseCString(s) == s
  {
  }

  /** In a string of odd length the middle character stays put. */
  lemma ReverseCStringMiddle(s: seq<Char>)
    requires NUL in s && StrLen(s) % 2 == 1
    ensures ReverseCString(s)[StrLen(s) / 2] == s[StrLen(s) / 2]
  {
    ReverseCStringAt(s, StrLen(s) / 2);
  }

  /** C's `^` on two characters. Kept as a function: written as `^`
      directly on the array cells, the exchange below is far costlier to
      verify. */
  function Xor(x: Char, y: Char): Char
  {
    x ^ y
  }

  /** The algebra the exchange rests on: XOR with the same character twice
      cancels, and a character XORed with itself is NUL. It documents why
      XorExchange swaps; the solver finds these facts without it. */
  lemma XorCancels(x: Char, y: Char)
    ensures Xor(Xor(x, y), y) == x && Xor(y, Xor(x, y)) == x
    ensures Xor(Xor(x, y), x) == y
    ensures Xor(x, x) == NUL
  {
  }

  /** The three `^=` statements of the loop body on slots i and j. With
      distinct slots they exchange the two characters; on one slot they
      would clear it, which the loop guard rules out. */
  method XorExchange(a: array<Char>, i: nat, j: nat)
    requires i < a.Length && j < a.Length
    modifies a
    ensures i != j ==> a[i] == old(a[j]) && a[j] == old(a[i])
    ensures i == j ==> a[i] == NUL
    ensures forall m :: 0 <= m < a.Length && m != i && m != j ==> a[m] == old(a[m])
  {
    a[i] := Xor(a[i], a[j]);
    a[j] := Xor(a[j], a[i]);
    a[i] := Xor(a[i], a[j]);
  }

  /** strrev: reverses the string held in `str` in place and returns `str`.
      A null pointer and the empty string are returned untouched. */
  method StrRev(str: array?<Char>) returns (r: array?<Char>)
    requires str != null ==> NUL in str[..]
    modifies str
    ensures r == str
    ensures str != null ==> str[..] == ReverseCString(old(str[..]))
  {
    if str == null || str[0] == NUL {
      return str;
    }
    ghost var orig := str[..];
    var n := StrLen(str[..]);
    var p1, p2 := 0, n - 1;
    while p2 > p1
      invariant 0 <= p1 <= p2 + 1 && p2 < n && p1 + p2 == n - 1
      invariant forall k :: 0 <= k < p1 ==> str[k] == orig[n - 1 - k]
      invariant forall k :: p2 < k < n ==> str[k] == orig[n - 1 - k]
      invariant forall k :: p1 <= k <= p2 ==> str[k] == orig[k]
      invariant forall k :: n <= k < str.Length ==> str[k] == orig[k]
    {
      XorExchange(str, p1, p2);
      p1, p2 := p1 + 1, p2 - 1;
    }
    forall k | 0 <= k < str.Length
      ensures str[..][k] == ReverseCString(orig)[k]
    {
      ReverseCStringAt(orig, k);
    }
    ReverseCStringAt(orig, 0);
    return str;
  }
}
