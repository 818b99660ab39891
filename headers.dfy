/** Header-value normalisation (the reference `GCDWebServerNormalizeHeaderValue`):
    the part before the first `;` is case-insensitive and is lower-cased, the
    parameters from the `;` on are kept as they are. */
module Headers {
  import opened Text

  /** Where the case-insensitive part ends: the first `;`, or the end. */
  function PrefixEnd(value: string): (n: nat)
    ensures n <= |value|
    ensures forall k :: 0 <= k < n ==> value[k] != ';'
    ensures n < |value| ==> value[n] == ';'
  {
    if ';' in value then IndexOf(value, ';') else |value|
  }

  /** Strings with `;` at the same positions have the same prefix end. */
  lemma PrefixEndAgrees(a: string, b: string)
    requires |a| == |b|
    requires forall k :: 0 <= k < |a| ==> (a[k] == ';' <==> b[k] == ';')
    ensures PrefixEnd(a) == PrefixEnd(b)
  {
  }

  function NormalizeHeaderValue(value: string): (r: string)
    ensures |r| == |value|
    ensures forall k :: 0 <= k < PrefixEnd(value) ==> r[k] == LowerChar(value[k])
    ensures forall k :: PrefixEnd(value) <= k < |value| ==> r[k] == value[k]
  {
    if ';' in value then
      var i := IndexOf(value, ';');
      Lower(value[..i]) + value[i..]
    else
      Lower(value)
  }

  /** Before the first `;` no upper-case letter survives; from there on every
      character is the original one; a value without `;` comes out fully
      lower-cased. */
  lemma NormalizeLowersOnlyBeforeSemicolon(value: string)
    ensures var r := NormalizeHeaderValue(value);
      && (forall k :: 0 <= k < PrefixEnd(value) ==> !IsUpper(r[k]))
      && (';' in value ==> r[IndexOf(value, ';')..] == value[IndexOf(value, ';')..])
      && (';' !in value ==> r == Lower(value))
  {
    var r := NormalizeHeaderValue(value);
    forall k | 0 <= k < PrefixEnd(value)
      ensures !IsUpper(r[k])
    {
      LowerCharFixesSemicolon(value[k]);
    }
  }

  /** Normalising keeps the first `;` where it was. */
  lemma NormalizePreservesPrefixEnd(value: string)
    ensures PrefixEnd(NormalizeHeaderValue(value)) == PrefixEnd(value)
  {
    var r, n := NormalizeHeaderValue(value), PrefixEnd(value);
    forall k | 0 <= k < n
      ensures r[k] != ';'
    {
      LowerCharFixesSemicolon(value[k]);
    }
    if n < |value| {
      assert r[n] == ';';
      assert ';' in r;
    }
  }

  /** Normalising twice is normalising once. */
  lemma NormalizeIdempotent(value: string)
    ensures NormalizeHeaderValue(NormalizeHeaderValue(value)) == NormalizeHeaderValue(value)
  {
    var r := NormalizeHeaderValue(value);
    NormalizePreservesPrefixEnd(value);
    forall k | 0 <= k < PrefixEnd(value)
      ensures LowerChar(r[k]) == r[k]
    {
      LowerCharFixesSemicolon(value[k]);
    }
  }

  /** A value with no upper-case letter is already normal. */
  lemma NormalizeWithoutUpper(value: string)
    requires forall c :: c in value ==> !IsUpper(c)
    ensures NormalizeHeaderValue(value) == value
  {
    var r := NormalizeHeaderValue(value);
    forall k | 0 <= k < |value|
      ensures r[k] == value[k]
    {
      assert value[k] in value;
    }
  }
}
