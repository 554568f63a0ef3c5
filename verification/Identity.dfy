/** RustDesk ids as the service stores them. */
module Identities {
  /** White space of the Unicode standard, and the two invisible marks clients paste along. */
  predicate Dropped(c: char) {
    var code := c as int;
    || 0x09 <= code <= 0x0D || code == 0x20 || code == 0x85 || code == 0xA0 || code == 0x1680
    || 0x2000 <= code <= 0x200B || code == 0x2028 || code == 0x2029 || code == 0x202F || code == 0x205F
    || code == 0x3000 || code == 0xFEFF
  }

  function Normalize(id: string): (r: string)
    ensures forall c :: c in r ==> !Dropped(c) && c in id
  {
    if id == "" then ""
    else Normalize(id[..|id| - 1]) + if Dropped(id[|id| - 1]) then "" else [id[|id| - 1]]
  }

  /** Exactly the ids without such characters are left alone, so normalizing twice changes nothing more. */
  lemma {:induction false} NormalizeFixes(id: string)
    ensures Normalize(id) == id <==> forall c :: c in id ==> !Dropped(c)
    ensures |Normalize(id)| <= |id|
  {
    if id == "" {
    } else {
      NormalizeFixes(id[..|id| - 1]);
      assert id == id[..|id| - 1] + [id[|id| - 1]];
    }
  }

  /** Every other character is kept, wherever it stands and in its order. */
  lemma {:induction false} NormalizeJoins(a: string, b: string)
    ensures Normalize(a + b) == Normalize(a) + Normalize(b)
    decreases |b|
  {
    if b == "" {
      assert a + b == a;
    } else {
      assert (a + b)[..|a + b| - 1] == a + b[..|b| - 1];
      NormalizeJoins(a, b[..|b| - 1]);
    }
  }

  /** White space, the zero-width space U+200B and the byte order mark U+FEFF are what goes. */
  lemma NormalizeOfOne(c: char)
    ensures Normalize([c]) == if Dropped(c) then "" else [c]
    ensures c in " \t\n\r" || c as int == 0x200B || c as int == 0xFEFF ==> Normalize([c]) == ""
    ensures '!' <= c <= '~' ==> Normalize([c]) == [c]
  {
    assert [c][..0] == "";
  }

  lemma NormalizeIsIdempotent(id: string)
    ensures Normalize(Normalize(id)) == Normalize(id)
  {
    NormalizeFixes(Normalize(id));
  }
}
