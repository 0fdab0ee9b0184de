/**
 * Property lookup on a plain JavaScript object literal used as a dictionary
 * (`table[key]`, `key in table`). Such an object inherits from
 * `Object.prototype`, so a key that is not one of its own properties can still
 * find an inherited member; every inherited member of `Object.prototype` is a
 * function or an object, hence truthy, and never a string.
 */
module JsObject {

  /**
   * The property names of `Object.prototype`. The highlighter lower-cases a
   * tag before it looks it up, so the camel-case names here are never reached
   * from it: only `constructor` and `__proto__` survive lower-casing.
   */
  const ObjectPrototypeKeys: set<string> := {
    "constructor", "__proto__", "__defineGetter__", "__defineSetter__",
    "__lookupGetter__", "__lookupSetter__", "hasOwnProperty", "isPrototypeOf",
    "propertyIsEnumerable", "toLocaleString", "toString", "valueOf"
  }

  /** What `table[key]` yields: an own value, an inherited member, or `undefined`. */
  datatype Property<+V> = Own(value: V) | Inherited(name: string) | Undefined

  function Get<V>(table: map<string, V>, key: string): (r: Property<V>)
    ensures r.Own? <==> key in table
    ensures r.Inherited? <==> key !in table && key in ObjectPrototypeKeys
    ensures r.Own? ==> r.value == table[key]
    ensures r.Inherited? ==> r.name == key
  {
    if key in table then Own(table[key])
    else if key in ObjectPrototypeKeys then Inherited(key)
    else Undefined
  }

  /** The `in` operator: true for own and for inherited properties. */
  predicate Has<V>(table: map<string, V>, key: string) {
    key in table || key in ObjectPrototypeKeys
  }
}
