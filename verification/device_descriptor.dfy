/**
 * The permissive boolean that a network device descriptor's "rx pullup"
 * field is read with: a handful of words mean true, another handful mean
 * false, and anything else (including a different letter case) means
 * nothing at all (Java `null`).
 */
module DeviceDescriptors {
  import opened Results

  const TrueWords: seq<string> := ["1", "active", "true", "enabled"]
  const FalseWords: seq<string> := ["0", "inactive", "false", "disabled"]

  /** Java `CustomBooleanDeserializer.deserialize`, given the field's text. */
  function Deserialize(text: string): (r: Option<bool>)
    ensures r == Some(true) <==> text in TrueWords
    ensures r == Some(false) <==> text in FalseWords
    ensures r == None <==> text !in TrueWords + FalseWords
  {
    if text in TrueWords then Some(true)
    else if text in FalseWords then Some(false)
    else None
  }

  /** No word means both true and false, so the order of the two lookups does not matter. */
  lemma WordsDisjoint(text: string)
    ensures !(text in TrueWords && text in FalseWords)
  {
  }

  /** Every listed word is written in lower case (or is a digit). */
  predicate LowerCase(text: string)
  {
    forall i :: 0 <= i < |text| ==> !('A' <= text[i] <= 'Z')
  }

  /** The lookup is case-sensitive: text with any capital letter means nothing. */
  lemma CapitalsMeanNothing(text: string, i: nat)
    requires i < |text| && 'A' <= text[i] <= 'Z'
    ensures Deserialize(text) == None
  {
    assert !LowerCase(text);
    forall w | w in TrueWords + FalseWords
      ensures LowerCase(w)
    {
    }
  }
}
