/** The two Python `str` methods the CBC padding uses: `zfill` and `lstrip('0')`. */
module PyStr {

  function Zeros(n: nat): (r: seq<char>)
    ensures |r| == n
    ensures forall i :: 0 <= i < n ==> r[i] == '0'
  {
    seq(n, _ => '0')
  }

  /** `zfill` keeps a leading sign in front of the zeros it inserts. */
  predicate HasSign(s: seq<char>) {
    |s| > 0 && (s[0] == '+' || s[0] == '-')
  }

  /**
   * `s.zfill(width)`: text at least `width` long is returned unchanged;
   * otherwise `'0'`s are inserted up to `width` characters, after the sign
   * if `s` starts with one and at the front if not.
   */
  function ZFill(s: seq<char>, width: nat): (r: seq<char>)
    ensures |r| == if |s| >= width then |s| else width
    ensures |s| >= width ==> r == s
    ensures var lead := if HasSign(s) then 1 else 0;
      && r[..lead] == s[..lead]
      && r[|r| - |s| + lead..] == s[lead..]
      && forall i :: lead <= i < |r| - |s| + lead ==> r[i] == '0'
  {
    if |s| >= width then s
    else if HasSign(s) then [s[0]] + Zeros(width - |s|) + s[1..]
    else Zeros(width - |s|) + s
  }

  /** `s.lstrip('0')`: every leading `'0'` removed, nothing else. */
  function LStripZeros(s: seq<char>): (r: seq<char>)
    ensures |r| <= |s| && r == s[|s| - |r|..]
    ensures forall i :: 0 <= i < |s| - |r| ==> s[i] == '0'
    ensures r == [] || r[0] != '0'
  {
    if |s| > 0 && s[0] == '0' then LStripZeros(s[1..]) else s
  }

  /** Text that does not start with `'0'` is left as it is. */
  lemma LStripZerosNoLeadingZero(s: seq<char>)
    requires s == [] || s[0] != '0'
    ensures LStripZeros(s) == s
  {
  }

  /** Stripping ignores any run of zeros put in front. */
  lemma {:induction false} LStripZerosAfterZeros(n: nat, s: seq<char>)
    ensures LStripZeros(Zeros(n) + s) == LStripZeros(s)
  {
    if n > 0 {
      assert (Zeros(n) + s)[1..] == Zeros(n - 1) + s;
      LStripZerosAfterZeros(n - 1, s);
    } else {
      assert Zeros(n) + s == s;
    }
  }
}
