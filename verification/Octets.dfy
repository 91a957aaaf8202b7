/** The characters and buffers of the power ECU link (`PacketBuffer` in i_network.hpp). */
module Octets {

  /** A C++ `char`, read through `unsigned char`. */
  type Octet = c: char | c as int < 256 witness ' '

  type Packet = seq<Octet>

  /** `std::find` over a whole range: the first index holding c, or the length. */
  function Find(s: Packet, c: Octet): (i: nat)
    ensures i <= |s|
    ensures i < |s| ==> s[i] == c
    ensures c !in s[..i]
  {
    if s == [] || s[0] == c then 0
    else
      var i := 1 + Find(s[1..], c);
      assert s[..i] == [s[0]] + s[1..][..i - 1];
      i
  }

  /** Find is determined by its contract: the first occurrence is unique. */
  lemma FindUnique(s: Packet, c: Octet, i: nat)
    requires i <= |s|
    requires i < |s| ==> s[i] == c
    requires c !in s[..i]
    ensures Find(s, c) == i
  {
    var f := Find(s, c);
    assert forall j :: 0 <= j < i ==> s[j] in s[..i];
    assert forall j :: 0 <= j < f ==> s[j] in s[..f];
  }

  /** Appending more input does not move an occurrence that was already there. */
  lemma FindStable(s: Packet, t: Packet, c: Octet)
    ensures Find(s, c) < |s| ==> Find(s + t, c) == Find(s, c)
    ensures Find(s, c) == |s| ==> Find(s + t, c) == |s| + Find(t, c)
  {
    var i := Find(s, c);
    if i < |s| {
      assert (s + t)[..i] == s[..i];
      FindUnique(s + t, c, i);
    } else {
      var j := Find(t, c);
      assert (s + t)[..|s| + j] == s[..i] + t[..j];
      FindUnique(s + t, c, |s| + j);
    }
  }

  lemma SliceOfSlice(s: Packet, i: nat, j: nat, k: nat, l: nat)
    requires i <= j <= |s| && k <= l <= j - i
    ensures s[i..j][k..l] == s[i + k..i + l]
  {
    var a, b := s[i..j][k..l], s[i + k..i + l];
    assert |a| == |b|;
    assert forall n :: 0 <= n < |a| ==> a[n] == s[i + k + n] && b[n] == s[i + k + n];
  }
}
