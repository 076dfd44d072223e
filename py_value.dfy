/**
 * An abstract Python value, enough to describe both what the model-provider SDK returns
 * (an SDK object with attributes, or a plain dict) and what `json.loads` produces.
 */
module PyValue {
  import opened Wrappers

  datatype Value =
    | NoneV                                  // None (JSON null)
    | Str(s: string)                         // str
    | Num(nonZero: bool)                     // int, float or bool: hashable, truthy unless zero/False
    | List(items: seq<Value>)                // list (unhashable)
    | Dict(entries: seq<(string, Value)>)    // dict with string keys, in insertion order (unhashable)
    | Obj(attrs: map<string, Value>)         // an SDK model object: attributes only, no len(), no [0]

  /** Python truthiness (`bool(v)`); objects are truthy. */
  predicate Truthy(v: Value) {
    match v
    case NoneV => false
    case Str(s) => s != []
    case Num(nz) => nz
    case List(items) => items != []
    case Dict(entries) => entries != []
    case Obj(_) => true
  }

  /** The key is present in the dict (`key in d`). */
  predicate HasKey(entries: seq<(string, Value)>, key: string) {
    exists i :: 0 <= i < |entries| && entries[i].0 == key
  }

  /** `d.get(key, default)`: the value of the first entry with that key. */
  function GetOr(entries: seq<(string, Value)>, key: string, default: Value): (r: Value)
    ensures !HasKey(entries, key) ==> r == default
    ensures HasKey(entries, key) ==> exists i :: 0 <= i < |entries| && entries[i] == (key, r)
  {
    if entries == [] then default
    else if entries[0].0 == key then entries[0].1
    else GetOr(entries[1..], key, default)
  }

  /** `d.get(key)`. */
  function DictGet(entries: seq<(string, Value)>, key: string): Value {
    GetOr(entries, key, NoneV)
  }

  /** `getattr(v, name, None)`: only SDK objects carry the attributes the code asks for. */
  function GetAttr(v: Value, name: string): Value {
    if v.Obj? && name in v.attrs then v.attrs[name] else NoneV
  }

  /**
   * `v[0]` after `len(v) > 0` has been checked, or None when either raises: `len` of an object
   * or a number raises TypeError, and `d[0]` of a dict with string keys raises KeyError.
   */
  function First(v: Value): (r: Option<Value>)
    ensures v.List? && v.items != [] ==> r == Some(v.items[0])
    ensures v.Dict? || v.Obj? || v.Num? || v.NoneV? ==> r.None?
  {
    match v
    case List(items) => if items != [] then Some(items[0]) else None
    case Str(s) => if s != [] then Some(Str([s[0]])) else None
    case _ => None
  }

  /** `x in some_set` is defined only for hashable values (not lists or dicts); None means TypeError. */
  function MemberOf(v: Value, s: set<string>): (r: Option<bool>)
    ensures r.None? <==> (v.List? || v.Dict?)
    ensures r == Some(true) <==> v.Str? && v.s in s
  {
    match v
    case Str(x) => Some(x in s)
    case NoneV => Some(false)
    case Num(_) => Some(false)
    case Obj(_) => Some(false)
    case _ => None
  }
}
