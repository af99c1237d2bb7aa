/** Ring positions and the keys whose hashes place virtual nodes on the ring. */
module Keys {

  /** A position on the ring: Go's `uint32`, the range of the 32-bit hash. */
  newtype uint32 = x: int | 0 <= x < 0x1_0000_0000

  /** The character for a decimal digit. */
  function Digit(d: nat): (c: char)
    requires d < 10
    ensures '0' <= c <= '9' && c as int - '0' as int == d
  {
    (d + '0' as int) as char
  }

  /** The decimal rendering of a non-negative index, as `strconv.Itoa` gives it:
      one or more digits, a single digit exactly for the values below ten. */
  function DecimalString(n: nat): (s: string)
    ensures 1 <= |s| && (|s| == 1 <==> n < 10)
    ensures forall k :: 0 <= k < |s| ==> '0' <= s[k] <= '9'
    decreases n
  {
    if n < 10 then [Digit(n)] else DecimalString(n / 10) + [Digit(n % 10)]
  }

  /** Distinct indices are rendered as distinct strings. */
  lemma {:induction false} DecimalStringInjective(a: nat, b: nat)
    requires DecimalString(a) == DecimalString(b)
    ensures a == b
  {
    var s := DecimalString(a);
    if a < 10 {
      assert b < 10;
      assert Digit(a) == s[0] == Digit(b);
    } else {
      assert 10 <= b;
      assert Digit(a % 10) == s[|s| - 1] == Digit(b % 10);
      assert DecimalString(a / 10) == s[..|s| - 1] == DecimalString(b / 10);
      DecimalStringInjective(a / 10, b / 10);
    }
  }

  /** The key hashed for virtual node `index` of node `ip`: `ip + "#" + index`.
      It starts with the node id, and the '#' right after the id is the last
      '#' of the key, with at least one character after it. */
  function GenerateKey(ip: string, index: nat): (key: string)
    ensures |ip| + 1 < |key| && key[..|ip|] == ip
    ensures key[|ip|] == '#' && forall k :: |ip| < k < |key| ==> key[k] != '#'
  {
    ip + "#" + DecimalString(index)
  }

  /** A key determines the node and the index it was generated from: the last
      '#' of a key separates the two, since the decimal part holds no '#'. */
  lemma GenerateKeyInjective(ip1: string, index1: nat, ip2: string, index2: nat)
    requires GenerateKey(ip1, index1) == GenerateKey(ip2, index2)
    ensures ip1 == ip2 && index1 == index2
  {
    var key := GenerateKey(ip1, index1);
    var d1, d2 := DecimalString(index1), DecimalString(index2);
    assert key == ip1 + "#" + d1 == ip2 + "#" + d2;
    assert |ip1| == |ip2|;
    assert ip1 == key[..|ip1|] == ip2;
    assert d1 == key[|ip1| + 1..] == d2;
    DecimalStringInjective(index1, index2);
  }
}
