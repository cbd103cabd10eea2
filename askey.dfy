/**
  The key under which affine spaces and polyhedral cones are stored in hash tables: an
  immutable 32-bit hash fixed at construction, and an equality that dispatches on the
  first of four key classes its argument is an instance of. The four subtypes' own equalities are not part of this
  model and are given as functions.
 */
module ASKeys {

  /** A Java int. */
  newtype Int32 = x: int | -0x8000_0000 <= x < 0x8000_0000

  /**
    The first of ASKeyAS, ASKeyPlanes, ASKeyRI and ASKeyPCo, in the order in which
    equals(Object) tests them with instanceof, that a key is an instance of (a key of a
    subclass of one of them gets that one); OtherSubtype when it is an instance of none.
   */
  datatype Subtype = KeyAS | KeyPlanes | KeyRI | KeyPCo | OtherSubtype

  /** A key object: its identity, the class equals(Object) dispatches it to and the hash it was built with. */
  datatype ASKey = ASKey(ref: nat, subtype: Subtype, hash: Int32)

  /** The argument of equals(Object): null, an object of another class, or a key. */
  datatype Obj = Null | NonKey(ref: nat) | Key(key: ASKey)

  /**
    The typed overloads equals(ASKeyAS), equals(ASKeyPlanes), equals(ASKeyRI) and
    equals(ASKeyPCo), each applied as receiver.equals(argument).
   */
  datatype TypedEquals = TypedEquals(
    onAS: (ASKey, ASKey) -> bool,
    onPlanes: (ASKey, ASKey) -> bool,
    onRI: (ASKey, ASKey) -> bool,
    onPCo: (ASKey, ASKey) -> bool)

  /** The constructor ASKey(int hash) of a key with the given identity and class. */
  function NewKey(ref: nat, subtype: Subtype, hash: Int32): (k: ASKey)
    ensures k.hash == hash
    ensures k.ref == ref && k.subtype == subtype
  {
    ASKey(ref, subtype, hash)
  }

  /** hashCode(): the value the key was built with; a key is rebuilt from its identity, class and hash code. */
  function HashCode(k: ASKey): (h: Int32)
    ensures NewKey(k.ref, k.subtype, h) == k
  {
    k.hash
  }

  /** The default equals(ASKey): the two hash codes agree. */
  predicate DefaultEquals(k: ASKey, other: ASKey): (r: bool)
    ensures r <==> HashCode(k) == HashCode(other)
  {
    k.hash == other.hash
  }

  /** obj is the receiver itself. */
  predicate SameObject(k: ASKey, obj: Obj)
  {
    obj.Key? && obj.key.ref == k.ref
  }

  /** equals(Object): identity, then null and foreign classes, then the overload of the first class the argument is an instance of. */
  function Equals(k: ASKey, obj: Obj, typed: TypedEquals): (r: bool)
    ensures SameObject(k, obj) ==> r
    ensures obj.Null? || obj.NonKey? ==> !r
    ensures obj.Key? && !SameObject(k, obj) ==>
      match obj.key.subtype
      case KeyAS => r == typed.onAS(k, obj.key)
      case KeyPlanes => r == typed.onPlanes(k, obj.key)
      case KeyRI => r == typed.onRI(k, obj.key)
      case KeyPCo => r == typed.onPCo(k, obj.key)
      case OtherSubtype => r == (HashCode(k) == HashCode(obj.key))
  {
    if SameObject(k, obj) then true
    else if obj.Null? then false
    else if obj.NonKey? then false
    else match obj.key.subtype
      case KeyAS => typed.onAS(k, obj.key)
      case KeyPlanes => typed.onPlanes(k, obj.key)
      case KeyRI => typed.onRI(k, obj.key)
      case KeyPCo => typed.onPCo(k, obj.key)
      case OtherSubtype => DefaultEquals(k, obj.key)
  }

  /** The default equality is an equivalence on keys. */
  lemma DefaultEqualsEquivalence(a: ASKey, b: ASKey, c: ASKey)
    ensures DefaultEquals(a, a)
    ensures DefaultEquals(a, b) ==> DefaultEquals(b, a)
    ensures DefaultEquals(a, b) && DefaultEquals(b, c) ==> DefaultEquals(a, c)
  {
  }

  /** Every key equals itself, whatever the overloads do. */
  lemma EqualsReflexive(k: ASKey, typed: TypedEquals)
    ensures Equals(k, Key(k), typed)
  {
  }

  /** Each typed overload only holds between keys with the same hash. */
  ghost predicate OverloadsRespectHash(typed: TypedEquals)
  {
    forall a: ASKey, b: ASKey ::
      && (typed.onAS(a, b) ==> a.hash == b.hash)
      && (typed.onPlanes(a, b) ==> a.hash == b.hash)
      && (typed.onRI(a, b) ==> a.hash == b.hash)
      && (typed.onPCo(a, b) ==> a.hash == b.hash)
  }

  /** Two key values with one identity are one object. */
  predicate OneObjectPerRef(a: ASKey, b: ASKey)
  {
    a.ref == b.ref ==> a == b
  }

  /**
    When the typed overloads respect the hash, so does equals(Object): keys it calls equal
    land in the same hash bucket, as the hashCode contract requires.
   */
  lemma EqualsRespectsHash(k: ASKey, other: ASKey, typed: TypedEquals)
    requires OverloadsRespectHash(typed)
    requires OneObjectPerRef(k, other)
    requires Equals(k, Key(other), typed)
    ensures HashCode(k) == HashCode(other)
  {
  }

  /** A key that is an instance of none of the four classes is equal exactly to the keys with its hash code. */
  lemma EqualsOtherByHash(k: ASKey, other: ASKey, typed: TypedEquals)
    requires other.subtype == OtherSubtype
    requires OneObjectPerRef(k, other)
    ensures Equals(k, Key(other), typed) <==> HashCode(k) == HashCode(other)
  {
  }
}
