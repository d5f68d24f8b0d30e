/** Python's `str.strip()` with no argument, which the name and address
    validators apply to every value they accept. */
module Text {

  /** The characters Python's `str.isspace` accepts. */
  predicate IsSpace(c: char) {
    var n := c as int;
    || n == 0x20 || 0x09 <= n <= 0x0D || 0x1C <= n <= 0x1F
    || n == 0x85 || n == 0xA0 || n == 0x1680 || 0x2000 <= n <= 0x200A
    || n == 0x2028 || n == 0x2029 || n == 0x202F || n == 0x205F || n == 0x3000
  }

  predicate AllSpace(s: string) {
    forall i | 0 <= i < |s| :: IsSpace(s[i])
  }

  /** Every character of `s[a..b]` is whitespace. */
  predicate SpaceBetween(s: string, a: nat, b: nat)
    requires a <= b <= |s|
  {
    forall k | a <= k < b :: IsSpace(s[k])
  }

  /** Neither end of `s` is whitespace. */
  predicate Trimmed(s: string) {
    s == [] || (!IsSpace(s[0]) && !IsSpace(s[|s| - 1]))
  }

  /** The left scan of `str.strip`: from `i`, the first index that is not whitespace. */
  function SkipLeft(s: string, i: nat): (n: nat)
    requires i <= |s|
    ensures i <= n <= |s|
    ensures SpaceBetween(s, i, n)
    ensures n < |s| ==> !IsSpace(s[n])
    decreases |s| - i
  {
    if i < |s| && IsSpace(s[i]) then SkipLeft(s, i + 1) else i
  }

  /** The right scan of `str.strip`: from `j` down to `lo`, the end of the
      last character that is not whitespace. */
  function SkipRight(s: string, lo: nat, j: nat): (n: nat)
    requires lo <= j <= |s|
    ensures lo <= n <= j
    ensures SpaceBetween(s, n, j)
    ensures n > lo ==> !IsSpace(s[n - 1])
    decreases j
  {
    if j > lo && IsSpace(s[j - 1]) then SkipRight(s, lo, j - 1) else j
  }

  /** `str.strip()`: `s` with whitespace removed from both ends. The result is
      the slice of `s` left between two all-whitespace margins, it is trimmed,
      and it is empty exactly when `s` is nothing but whitespace. */
  function Strip(s: string): (r: string)
    ensures Trimmed(r)
    ensures r == [] <==> AllSpace(s)
    ensures exists i :: 0 <= i <= |s| - |r| && r == s[i..i + |r|] && SpaceBetween(s, 0, i) && SpaceBetween(s, i + |r|, |s|)
  {
    var i := SkipLeft(s, 0);
    var j := SkipRight(s, i, |s|);
    assert i < j ==> s[i..j][0] == s[i];
    s[i..j]
  }

  /** Stripping is idempotent: a stripped string is its own strip. */
  lemma {:induction false} StripIdempotent(s: string)
    ensures Strip(Strip(s)) == Strip(s)
  {
  }
}
