/** The attribute-mapped root record of root.py: a root carries its identity triple and a
    set of attributes that callers read and write through logical field names, translated
    by the schema's `attr_map`. */
module RootRecord {
  import opened Values

  /** `RootIdentity(rootname, location, birthsession)`; two identities are the same root
      exactly when all three components are equal. */
  datatype RootIdentity = RootIdentity(rootname: Value, location: Value, birthsession: Value)

  /** The attributes a fresh record always carries, each initialised to ''. */
  const FixedAttributes: seq<string> := ["isAlive", "censored", "highestOrder", "anomaly"]

  /** A root record: the logical-name-to-attribute map, the identity, and the attributes set
      so far. */
  datatype Root = Root(attrMap: map<string, string>, identity: RootIdentity, attributes: map<string, Value>)

  /** `Root(attr_map, rootname, location, birthsession)`. */
  function NewRoot(attrMap: map<string, string>, rootname: Value, location: Value, birthsession: Value): (r: Root)
    ensures r.identity == RootIdentity(rootname, location, birthsession)
    ensures r.attrMap == attrMap
    ensures forall k, d :: k in attrMap && attrMap[k] in FixedAttributes ==> Get(r, k, d) == Str("")
    ensures forall k, d :: k in attrMap && attrMap[k] !in FixedAttributes ==> Get(r, k, d) == d
  {
    Root(attrMap, RootIdentity(rootname, location, birthsession),
         map["anomaly" := Str(""), "isAlive" := Str(""), "censored" := Str(""), "highestOrder" := Str("")])
  }

  /** `get(key, default)`: the attribute `key` maps to, or `default` when it was never set. */
  function Get(r: Root, key: string, default: Value): Value
    requires key in r.attrMap
  {
    var attr := r.attrMap[key];
    if attr in r.attributes then r.attributes[attr] else default
  }

  /** `set(key, value)`: afterwards every logical name mapped to the same attribute as `key`
      reads `value`, and every other logical name reads what it read before. */
  function Set(r: Root, key: string, value: Value): (r': Root)
    requires key in r.attrMap
    ensures r'.identity == r.identity && r'.attrMap == r.attrMap
    ensures forall k, d :: k in r.attrMap && r.attrMap[k] == r.attrMap[key] ==> Get(r', k, d) == value
    ensures forall k, d :: k in r.attrMap && r.attrMap[k] != r.attrMap[key] ==> Get(r', k, d) == Get(r, k, d)
  {
    r.(attributes := r.attributes[r.attrMap[key] := value])
  }

  /** `get` reads through the map: two logical names mapped to the same attribute read the
      same value. */
  lemma GetThroughSharedName(r: Root, k1: string, k2: string, default: Value)
    requires k1 in r.attrMap && k2 in r.attrMap && r.attrMap[k1] == r.attrMap[k2]
    ensures Get(r, k1, default) == Get(r, k2, default)
  {
  }

  /** Writing back the value just read from an attribute that was set changes nothing. */
  lemma SetWhatWasRead(r: Root, key: string, default: Value)
    requires key in r.attrMap && r.attrMap[key] in r.attributes
    ensures Set(r, key, Get(r, key, default)) == r
  {
    assert Set(r, key, Get(r, key, default)).attributes == r.attributes;
  }

  /** The last write through a key wins. */
  lemma SetTwice(r: Root, key: string, v1: Value, v2: Value)
    requires key in r.attrMap
    ensures Set(Set(r, key, v1), key, v2) == Set(r, key, v2)
  {
    assert Set(Set(r, key, v1), key, v2).attributes == Set(r, key, v2).attributes;
  }
}
