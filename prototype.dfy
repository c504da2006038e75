/**
 * The session store of server.js is a plain JavaScript object, so
 * `sessions[code]` also finds the members every object inherits from
 * `Object.prototype`. For such a name the value is a function (truthy) whose
 * `expiresAt` is undefined, and `Date.now() > undefined` is false: the 404
 * guard of `/preview` and `/download` lets the request through although no
 * session was ever stored under that code.
 *
 * This module models the guard as written. The rest of the model uses
 * `Sessions.Lookup`, which sees only stored entries.
 */
module PrototypeLookup {
  import opened Wrappers
  import opened Codes
  import opened Sessions

  /** The property names a plain object inherits from `Object.prototype`. */
  const InheritedNames: set<string> := {
    "constructor", "hasOwnProperty", "isPrototypeOf", "propertyIsEnumerable",
    "toLocaleString", "toString", "valueOf", "__proto__",
    "__defineGetter__", "__defineSetter__", "__lookupGetter__", "__lookupSetter__"
  }

  /** What `sessions[code]` evaluates to. */
  datatype PropertyValue = OwnSession(session: Session) | InheritedMember | Undefined

  function PropertyOf(m: Store, code: string): (v: PropertyValue)
    ensures v.OwnSession? <==> code in m
    ensures v.OwnSession? ==> v.session == m[code]
    ensures v.InheritedMember? <==> code !in m && code in InheritedNames
  {
    if code in m then OwnSession(m[code])
    else if code in InheritedNames then InheritedMember
    else Undefined
  }

  /**
   * `!(!session || Date.now() > session.expiresAt)` as the source evaluates it:
   * an inherited member is truthy and comparing a number with its undefined
   * `expiresAt` is false.
   */
  predicate PassesGuardAsWritten(m: Store, code: string, now: int)
    ensures PassesGuardAsWritten(m, code, now) <==>
      (code in m && now <= m[code].expiresAt) || (code !in m && code in InheritedNames)
  {
    match PropertyOf(m, code)
    case Undefined => false
    case InheritedMember => true
    case OwnSession(s) => Visible(s, now)
  }

  /** `GET /preview/constructor` on an empty store gets past the guard; the intended lookup finds nothing. */
  lemma ConstructorPassesGuard(now: int)
    ensures PassesGuardAsWritten(map[], "constructor", now)
    ensures Lookup(map[], "constructor", now).None?
  {
  }

  /** Outside the inherited names the guard as written and the intended lookup agree. */
  lemma GuardAgreesElsewhere(m: Store, code: string, now: int)
    requires code in m || code !in InheritedNames
    ensures PassesGuardAsWritten(m, code, now) <==> Lookup(m, code, now).Some?
  {
  }

  /** No generated code is an inherited name, so the discrepancy needs a hand-typed code. */
  lemma GeneratedCodesAreNotInherited(c: string)
    requires IsCode(c)
    ensures c !in InheritedNames
  {
  }
}
