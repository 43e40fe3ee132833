/** The key-value metadata filter (`sanitize_kvstore` and
    `sanitize_kvstore_list` in papermerge/core/views/utils.py): only the
    known keys of a metadata dictionary pass, booleans as they are and
    every other value HTML-escaped. */
module KvStore {

  /** A metadata value: a boolean, or any other value by its text (what
      the HTML escaper receives after converting it to a string). */
  datatype KvValue = Flag(b: bool) | Text(s: string)

  type KvDict = map<string, KvValue>

  /** The keys that survive the filter, in the order they are visited. */
  const AllowedKeys: seq<string> := ["id", "key", "value", "kv_type", "kv_format", "kv_inherited"]

  predicate Allowed(k: string)
  {
    k in AllowedKeys
  }

  /** The value rule: booleans unchanged, anything else escaped. */
  function SanitizeValue(v: KvValue, escape: string -> string): (r: KvValue)
    ensures v.Flag? ==> r == v
    ensures v.Text? ==> r == Text(escape(v.s))
  {
    match v
    case Flag(b) => Flag(b)
    case Text(s) => Text(escape(s))
  }

  /** The sanitized dictionary, as a whole. */
  function Sanitized(kv: KvDict, escape: string -> string): (r: KvDict)
    ensures forall k :: k in r <==> k in kv && Allowed(k)
    ensures forall k :: k in r ==> r[k] == SanitizeValue(kv[k], escape)
  {
    map k | k in kv && Allowed(k) :: SanitizeValue(kv[k], escape)
  }

  /** `sanitize_kvstore(kvstore_dict)`: visits the allowed keys in turn
      and copies each one present, with its value sanitized. */
  method SanitizeKvstore(kv: KvDict, escape: string -> string) returns (r: KvDict)
    ensures r == Sanitized(kv, escape)
  {
    r := map[];
    for i := 0 to |AllowedKeys|
      invariant forall k :: k in r <==> k in kv && k in AllowedKeys[..i]
      invariant forall k :: k in r ==> r[k] == SanitizeValue(kv[k], escape)
    {
      var key := AllowedKeys[i];
      assert AllowedKeys[..i + 1] == AllowedKeys[..i] + [key];
      if key in kv {
        var value := kv[key];
        var allowedValue := if value.Flag? then value else SanitizeValue(value, escape);
        r := r[key := allowedValue];
      }
    }
    assert AllowedKeys[..|AllowedKeys|] == AllowedKeys;
  }

  /** `sanitize_kvstore_list(kvstore_list)`: every dictionary of the list
      sanitized, in order. (The list-type check is the parameter's type.) */
  method SanitizeKvstoreList(list: seq<KvDict>, escape: string -> string) returns (r: seq<KvDict>)
    ensures |r| == |list|
    ensures forall i :: 0 <= i < |list| ==> r[i] == Sanitized(list[i], escape)
  {
    r := [];
    for i := 0 to |list|
      invariant |r| == i
      invariant forall j :: 0 <= j < i ==> r[j] == Sanitized(list[j], escape)
    {
      var item := SanitizeKvstore(list[i], escape);
      r := r + [item];
    }
  }

  /** With an escaper that changes nothing, the filter is the restriction
      of the dictionary to the allowed keys. */
  lemma SanitizedRestricts(kv: KvDict, escape: string -> string)
    requires forall s :: escape(s) == s
    ensures Sanitized(kv, escape) == map k | k in kv && Allowed(k) :: kv[k]
  {
    var r := Sanitized(kv, escape);
    forall k | k in r ensures r[k] == kv[k] {
      match kv[k]
      case Flag(b) =>
      case Text(s) => assert escape(s) == s;
    }
  }

  /** Filtering a filtered dictionary again keeps the same keys and the
      same booleans, and escapes every text once more. */
  lemma SanitizedTwice(kv: KvDict, escape: string -> string)
    ensures var once := Sanitized(kv, escape);
      var twice := Sanitized(once, escape);
      twice.Keys == once.Keys
      && (forall k :: k in twice && kv[k].Flag? ==> twice[k] == kv[k])
      && (forall k :: k in twice && kv[k].Text? ==> twice[k] == Text(escape(escape(kv[k].s))))
  {
  }

  /** A dictionary with only unknown keys sanitizes to the empty one. */
  lemma SanitizedDropsUnknown(kv: KvDict, escape: string -> string)
    requires forall k :: k in kv ==> !Allowed(k)
    ensures Sanitized(kv, escape) == map[]
  {
    var r := Sanitized(kv, escape);
    assert r.Keys == {};
  }
}
