/** Reading a JavaScript object literal as a table, the way the client's
    label and colour helpers do: `table[key] || fallback`. The literal's
    own property wins when it is a non-empty string; a key every object
    inherits from `Object.prototype` (such as "constructor") finds that
    inherited member, which is truthy and not a string; any other key
    falls back. */
module ObjectLookup {
  import opened Wrappers

  /** The property names every plain object inherits from
      `Object.prototype`. */
  const PrototypeKeys: set<string> := {
    "constructor", "__proto__", "toString", "toLocaleString", "valueOf",
    "hasOwnProperty", "isPrototypeOf", "propertyIsEnumerable",
    "__defineGetter__", "__defineSetter__", "__lookupGetter__", "__lookupSetter__"
  }

  /** What a lookup yields: a string, or the inherited member a prototype
      key names (a function, or the prototype object itself). */
  datatype Lookup = Found(text: string) | Inherited(key: string)

  /** `table[key] || fallback`, where `own` is the literal's own property
      for `key`, if it has one. */
  function LookupOr(own: Option<string>, key: string, fallback: string): (r: Lookup)
    ensures r.Inherited? <==> own.None? && key in PrototypeKeys
    ensures r.Inherited? ==> r.key == key
    ensures own.Some? && own.value != [] ==> r == Found(own.value)
    ensures r.Found? && r.text != fallback ==> own == Some(r.text)
  {
    match own
    case Some(v) => if v != [] then Found(v) else Found(fallback)
    case None => if key in PrototypeKeys then Inherited(key) else Found(fallback)
  }
}
