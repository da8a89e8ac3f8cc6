/** `reverse` of the echo test server (tests/servers/echo.go), which
    answers every message with its bytes in reverse order. */
module Echo {
  import opened Base

  /** The reversal, defined by recursion on the first byte. */
  function Reversed(s: seq<byte>): (r: seq<byte>)
    ensures |r| == |s|
  {
    if s == [] then [] else Reversed(s[1..]) + [s[0]]
  }

  /** Byte `i` of the reversal is byte `|s| - 1 - i` of the input. */
  lemma {:induction false} ReversedIndex(s: seq<byte>)
    ensures forall i :: 0 <= i < |s| ==> Reversed(s)[i] == s[|s| - 1 - i]
  {
    if s != [] {
      ReversedIndex(s[1..]);
    }
  }

  /** The in-place swap loop: bytes `i` and `l - i - 1` trade places for
      every `i` below `l / 2`. */
  method Reverse(s: seq<byte>) returns (r: seq<byte>)
    ensures r == Reversed(s)
  {
    var b := s;
    var l := |b|;
    var i := 0;
    while i < l / 2
      invariant 0 <= i <= l / 2 && |b| == l
      invariant forall k :: 0 <= k < i ==> b[k] == s[l - 1 - k] && b[l - 1 - k] == s[k]
      invariant forall k :: i <= k < l - i ==> b[k] == s[k]
    {
      var t := b[i];
      b := b[i := b[l - i - 1]][l - i - 1 := t];
      i := i + 1;
    }
    ReversedIndex(s);
    r := b;
  }

  /** Reversing twice gives the input back. */
  lemma ReversedTwice(s: seq<byte>)
    ensures Reversed(Reversed(s)) == s
  {
    ReversedIndex(s);
    ReversedIndex(Reversed(s));
  }

  /** The middle byte of an odd-length message stays where it is. */
  lemma MiddleStays(s: seq<byte>)
    requires |s| % 2 == 1
    ensures Reversed(s)[|s| / 2] == s[|s| / 2]
  {
    ReversedIndex(s);
  }
}
