/** Vocabulary shared by every part of the proxy model: optional values,
    octets, the text view of a byte buffer, and the small string scanners
    the drafts build their routing on. */
module Base {

  /** A value that may be absent (a Go `nil`, a missing map entry, a
      failed parse). */
  datatype Option<+T> = None | Some(value: T)

  /** An octet, as Go's `byte`. */
  type byte = x: int | 0 <= x < 256

  /** Go's `string(b)`: every byte read as the character with that code. */
  function Text(b: seq<byte>): (s: string)
    ensures |s| == |b|
    ensures forall i :: 0 <= i < |b| ==> s[i] as int == b[i]
  {
    seq(|b|, i requires 0 <= i < |b| => b[i] as char)
  }

  /** Go's `[]byte(s)` for text whose characters are single octets; a wider
      character keeps its low octet. */
  function Raw(s: string): (b: seq<byte>)
    ensures |b| == |s|
    ensures forall i :: 0 <= i < |s| && (s[i] as int) < 256 ==> b[i] == s[i] as int
  {
    seq(|s|, i requires 0 <= i < |s| => (s[i] as int) % 256)
  }

  /** Reading a buffer as text and writing it back loses nothing. */
  lemma RawText(b: seq<byte>)
    ensures Raw(Text(b)) == b
  {
  }

  /** Go's `binary.BigEndian.Uint16` over two octets. */
  function BigEndian16(hi: byte, lo: byte): (v: nat)
    ensures v < 0x1_0000
    ensures v / 256 == hi && v % 256 == lo
  {
    hi * 256 + lo
  }

  /** No value appears twice: what `sync.Map.Range` promises of the keys
      it visits. */
  predicate NoDup<T(==)>(s: seq<T>) {
    forall i, j :: 0 <= i < j < |s| ==> s[i] != s[j]
  }

  /** `\w` of Go's regexp syntax: [0-9A-Za-z_]. */
  predicate IsWordChar(c: char) {
    ('0' <= c <= '9') || ('A' <= c <= 'Z') || ('a' <= c <= 'z') || c == '_'
  }

  /** End of the longest run of word characters that starts at `i`. */
  function WordEnd(s: string, i: nat): (j: nat)
    requires i <= |s|
    ensures i <= j <= |s|
    ensures forall k :: i <= k < j ==> IsWordChar(s[k])
    ensures j == |s| || !IsWordChar(s[j])
    decreases |s| - i
  {
    if i < |s| && IsWordChar(s[i]) then WordEnd(s, i + 1) else i
  }

  /** `WordEnd` is pinned down by the run it describes. */
  lemma {:induction false} WordEndIs(s: string, i: nat, j: nat)
    requires i <= j <= |s|
    requires forall k :: i <= k < j ==> IsWordChar(s[k])
    requires j == |s| || !IsWordChar(s[j])
    ensures WordEnd(s, i) == j
    decreases j - i
  {
    if i < j {
      WordEndIs(s, i + 1, j);
    }
  }

  /** `p` occurs in `s` starting at index `i`. */
  predicate HasAt(s: string, i: nat, p: string) {
    i + |p| <= |s| && s[i..i + |p|] == p
  }

  /** Index of the first occurrence of `p` in `s`, at or after `from`. */
  function IndexFrom(s: string, p: string, from: nat): (r: Option<nat>)
    requires from <= |s|
    ensures r.Some? ==> from <= r.value && HasAt(s, r.value, p)
    decreases |s| - from
  {
    if HasAt(s, from, p) then Some(from)
    else if from + |p| >= |s| then None
    else IndexFrom(s, p, from + 1)
  }

  /** `IndexFrom` finds the first occurrence at or after `from`, and reports
      none only when there is none. */
  lemma {:induction false} IndexFromSpec(s: string, p: string, from: nat)
    requires from <= |s|
    ensures IndexFrom(s, p, from).Some? ==> forall k :: from <= k < IndexFrom(s, p, from).value ==> !HasAt(s, k, p)
    ensures IndexFrom(s, p, from).None? ==> forall k :: from <= k ==> !HasAt(s, k, p)
    decreases |s| - from
  {
    if !HasAt(s, from, p) && from + |p| < |s| {
      IndexFromSpec(s, p, from + 1);
    }
  }

  /** Index of the first occurrence of `p` in `s` (`bytes.Index`). */
  function IndexOf(s: string, p: string): (r: Option<nat>)
    ensures r.Some? ==> HasAt(s, r.value, p)
  {
    IndexFrom(s, p, 0)
  }

  /** `IndexOf` reports the first occurrence, or none when there is none. */
  lemma IndexOfSpec(s: string, p: string)
    ensures IndexOf(s, p).Some? ==> forall k: nat :: k < IndexOf(s, p).value ==> !HasAt(s, k, p)
    ensures IndexOf(s, p).None? ==> forall k: nat :: !HasAt(s, k, p)
  {
    IndexFromSpec(s, p, 0);
  }

  /** An occurrence with none before it is the first one. */
  lemma IndexOfIs(s: string, p: string, k: nat)
    requires HasAt(s, k, p)
    requires forall j: nat :: j < k ==> !HasAt(s, j, p)
    ensures IndexOf(s, p) == Some(k)
  {
    IndexOfSpec(s, p);
    var r := IndexOf(s, p);
    assert r.Some? && !(r.value > k);
  }

  /** `bytes.Replace(s, pat, rep, 1)`: the first occurrence of `pat` is
      replaced by `rep`; without an occurrence `s` is returned. */
  function ReplaceFirst(s: string, pat: string, rep: string): (r: string)
    ensures r == s || |r| == |s| - |pat| + |rep|
  {
    match IndexOf(s, pat)
    case None => s
    case Some(k) => s[..k] + rep + s[k + |pat|..]
  }

  /** Around the first occurrence nothing changes. */
  lemma ReplaceFirstAt(s: string, pat: string, rep: string, k: nat)
    requires IndexOf(s, pat) == Some(k)
    ensures var r := ReplaceFirst(s, pat, rep);
      r[..k] == s[..k] && r[k..k + |rep|] == rep && r[k + |rep|..] == s[k + |pat|..]
  {
    var r := ReplaceFirst(s, pat, rep);
    assert r == s[..k] + rep + s[k + |pat|..];
    assert r[..k] == s[..k];
    assert r[k + |rep|..] == s[k + |pat|..];
  }

  /** Replacing the first occurrence by nothing deletes it. */
  lemma DeleteFirst(s: string, pat: string, k: nat)
    requires IndexOf(s, pat) == Some(k)
    ensures ReplaceFirst(s, pat, []) == s[..k] + s[k + |pat|..]
  {
  }

  /** The decimal digits of `n`, as `%d` prints them. */
  function Decimal(n: nat): (s: string)
    ensures |s| >= 1 && AllDigits(s)
    ensures s[0] == '0' ==> n == 0
    decreases n
  {
    if n < 10 then [(48 + n) as char] else Decimal(n / 10) + [(48 + n % 10) as char]
  }

  predicate AllDigits(s: string) {
    forall i :: 0 <= i < |s| ==> '0' <= s[i] <= '9'
  }

  /** Reading decimal digits back. */
  function ParseDecimal(s: string): (n: nat)
    requires AllDigits(s)
  {
    if s == [] then 0 else ParseDecimal(s[..|s| - 1]) * 10 + (s[|s| - 1] as int - 48)
  }

  /** Printing then reading a number gives it back. */
  lemma {:induction false} DecimalRoundTrip(n: nat)
    ensures ParseDecimal(Decimal(n)) == n
  {
    if n >= 10 {
      var s := Decimal(n);
      assert s[..|s| - 1] == Decimal(n / 10);
      DecimalRoundTrip(n / 10);
    }
  }

  /** Three-digit numbers print as their three digits. */
  lemma Decimal3(n: nat)
    requires 100 <= n < 1000
    ensures Decimal(n) == [(48 + n / 100) as char, (48 + n / 10 % 10) as char, (48 + n % 10) as char]
  {
    assert Decimal(n) == Decimal(n / 10) + [(48 + n % 10) as char];
    assert Decimal(n / 10) == Decimal(n / 100) + [(48 + n / 10 % 10) as char];
  }
}
