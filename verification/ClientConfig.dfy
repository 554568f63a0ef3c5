/** The RustDesk client configuration string: base64url of the JSON payload, reversed in place.
    The JSON encoder is not part of this model; its output is the argument. */
module ClientConfig {
  import opened Wrappers
  import opened Base64

  /** The string as the client reads it back: last character first. */
  function Backwards(s: string): string {
    if s == [] then [] else Backwards(s[1..]) + [s[0]]
  }

  lemma {:induction false} BackwardsAt(s: string, k: nat)
    requires k < |s|
    ensures |Backwards(s)| == |s| && Backwards(s)[k] == s[|s| - 1 - k]
  {
    if |s| > 1 {
      BackwardsAt(s[1..], if k < |s| - 1 then k else 0);
    }
  }

  lemma BackwardsIs(s: string, t: string)
    requires |t| == |s| && forall k :: 0 <= k < |s| ==> t[k] == s[|s| - 1 - k]
    ensures t == Backwards(s)
  {
    if s != [] {
      BackwardsAt(s, 0);
    }
    forall k | 0 <= k < |s|
      ensures t[k] == Backwards(s)[k]
    {
      BackwardsAt(s, k);
    }
  }

  lemma BackwardsTwice(s: string)
    ensures Backwards(Backwards(s)) == s
  {
    var t := Backwards(s);
    if s != [] {
      BackwardsAt(s, 0);
    }
    forall k | 0 <= k < |s|
      ensures s[k] == t[|t| - 1 - k]
    {
      BackwardsAt(s, |s| - 1 - k);
    }
    BackwardsIs(t, s);
  }

  /** EncodeRustDeskServerConfig, from the marshalled payload on. */
  method EncodeRustDeskServerConfig(payload: seq<byte>) returns (config: string)
    ensures config == Backwards(Encode(URLEncoding, payload))
    ensures Decode(URLEncoding, Backwards(config)) == Some(payload)
  {
    ghost var text := Encode(URLEncoding, payload);
    var plain := Encode(URLEncoding, payload);
    var encoded := new char[|plain|](i requires 0 <= i < |plain| => plain[i]);
    var left, right := 0, encoded.Length - 1;
    while left < right
      invariant 0 <= left && right == encoded.Length - 1 - left && left <= right + 1
      invariant forall k :: 0 <= k < left || right < k < encoded.Length ==> encoded[k] == text[|text| - 1 - k]
      invariant forall k :: left <= k <= right ==> encoded[k] == text[k]
    {
      encoded[left], encoded[right] := encoded[right], encoded[left];
      left, right := left + 1, right - 1;
    }
    config := encoded[..];
    BackwardsIs(text, config);
    BackwardsTwice(text);
    RoundTrip(URLEncoding, payload);
  }
}
