/** What a plain JavaScript object (`{}`, or an object `JSON.parse` built)
    answers for a property it does not own: the members of `Object.prototype`
    it inherits. The server indexes such objects with keys read from cells, so
    a cell holding one of these names reaches an inherited member. */
module PlainObject {

  /** The functions every plain object inherits from `Object.prototype`. */
  const InheritedFunctions: set<string> :=
    {"constructor", "hasOwnProperty", "isPrototypeOf", "propertyIsEnumerable",
     "toLocaleString", "toString", "valueOf",
     "__defineGetter__", "__defineSetter__", "__lookupGetter__", "__lookupSetter__"}

  /** The accessor whose getter answers the prototype itself and whose setter
      ignores anything that is not an object. */
  const ProtoKey: string := "__proto__"

  /** Every name a plain object answers for without owning it. */
  const ReservedNames: set<string> := InheritedFunctions + {ProtoKey}

  /** `String(o[name])` for an inherited member `name` of a plain object `o`:
      a built-in function prints its source as `[native code]`, the prototype
      prints as `[object Object]`. */
  function InheritedText(name: string): (t: string)
    requires name in ReservedNames
    ensures t != ""
  {
    if name == ProtoKey then "[object Object]"
    else if name == "constructor" then "function Object() { [native code] }"
    else "function " + name + "() { [native code] }"
  }
}
