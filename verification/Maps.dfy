/** Facts about finite maps shared by the table models. */
module Maps {
  lemma ValuesGrow<K, V>(m: map<K, V>, key: K, value: V)
    requires key !in m
    ensures m[key := value].Values == m.Values + {value}
  {
    var after := m[key := value];
    assert after[key] == value;
    forall x | x in m.Values
      ensures x in after.Values
    {
      var k :| k in m && m[k] == x;
      assert after[k] == x;
    }
  }
}
