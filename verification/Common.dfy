/** Types and bounds that several components share. */
module Common {

  newtype Byte = x: int | 0 <= x < 256

  const U64_MAX: nat := 0xFFFF_FFFF_FFFF_FFFF

  datatype Option<+T> = None | Some(value: T)

  // A byte survives the way through a bit vector.
  lemma Octet(n: nat)
    requires n < 256
    ensures (n as bv8) as nat == n
  {
  }

  function Min(a: nat, b: nat): nat {
    if a < b then a else b
  }

  // The first position of c, or the length of the text.
  function Find(text: string, c: char): (k: nat)
    ensures k <= |text| && (k < |text| ==> text[k] == c)
    ensures forall i :: 0 <= i < k ==> text[i] != c
  {
    if text == [] || text[0] == c then 0 else 1 + Find(text[1..], c)
  }

  // A joined pair splits where it was joined, provided the first part has no separator.
  lemma {:induction false} SplitJoined(a: string, c: char, b: string)
    requires c !in a
    ensures Find(a + [c] + b, c) == |a|
  {
    var text := a + [c] + b;
    assert text[|a|] == c && text[..|a|] == a;
    assert forall i :: 0 <= i < |a| ==> text[i] == a[i];
  }
}
