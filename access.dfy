/**
 * Reading a vector: `__getitem__` with an integer or a slice key, and the
 * attribute hooks `__getattr__` (the shortcut names x, y, z, t) and
 * `__setattr__` (which only ever refuses writes to one-letter names).
 */
module Access {
  import opened Wrappers
  import opened Doubles
  import opened Vectors
  import opened Slices

  // ---------------------------------------------------------------------
  // Indexing

  /** `array.__getitem__` with an integer: negative positions count from the end. */
  function ComponentAt(cs: seq<Double>, i: int): (r: Result<Double, Error>)
    ensures r.Success? <==> -|cs| <= i < |cs|
    ensures r.Success? && i >= 0 ==> r.value == cs[i]
    ensures r.Success? && i < 0 ==> r.value == cs[|cs| + i]
    ensures r.Failure? ==> r.error == IndexError
  {
    var j := if i < 0 then i + |cs| else i;
    if 0 <= j < |cs| then Success(cs[j]) else Failure(IndexError)
  }

  /** The keys `__getitem__` tells apart. */
  datatype Key =
    | IntegerKey(i: int)   // any `numbers.Integral`
    | SliceKey(s: Slice)
    | OtherKey             // anything else: a float, a string, a tuple, ...

  /** What `__getitem__` returns: one component, or a new vector. */
  datatype Item = Component(value: Double) | SubVector(vector: Vector)

  /**
   * `__getitem__`: a slice builds a new vector over the selected components,
   * an integer returns one component, any other key raises TypeError.
   */
  function GetItem(v: Vector, key: Key): (r: Result<Item, Error>)
    ensures key.OtherKey? ==> r == Failure(TypeError)
    ensures key.IntegerKey? ==> (r.Success? <==> -(v.Len() as int) <= key.i < v.Len())
    ensures key.SliceKey? ==> (r.Success? <==> key.s.step != Some(0))
  {
    match key
    case SliceKey(s) =>
      (match Indices(s, v.Len())
       case Success(b) => Success(SubVector(Vector(Select(v.components, b))))
       case Failure(e) => Failure(e))
    case IntegerKey(i) =>
      (match ComponentAt(v.components, i)
       case Success(c) => Success(Component(c))
       case Failure(e) => Failure(e))
    case OtherKey => Failure(TypeError)
  }

  /** An integer key in range gives that component; any other integer raises IndexError. */
  lemma GetItemInteger(v: Vector, i: int)
    ensures 0 <= i < v.Len() ==> GetItem(v, IntegerKey(i)) == Success(Component(v.components[i]))
    ensures -(v.Len() as int) <= i < 0 ==> GetItem(v, IntegerKey(i)) == Success(Component(v.components[v.Len() + i]))
    ensures (i < -(v.Len() as int) || i >= v.Len()) ==> GetItem(v, IntegerKey(i)) == Failure(IndexError)
  {
  }

  /**
   * A slice key with a non-zero step gives a new vector whose components are
   * those at start, start + step, ... of the resolved bounds; a zero step
   * raises ValueError.
   */
  lemma GetItemSlice(v: Vector, s: Slice)
    ensures s.step == Some(0) ==> GetItem(v, SliceKey(s)) == Failure(ValueError)
    ensures s.step != Some(0) ==>
      var b := Indices(s, v.Len()).value;
      && GetItem(v, SliceKey(s)).Success?
      && GetItem(v, SliceKey(s)).value.SubVector?
      && var w := GetItem(v, SliceKey(s)).value.vector;
      && w.Len() == SliceLength(b)
      && forall k :: 0 <= k < w.Len() ==>
           0 <= b.start + k * b.step < v.Len() && w.components[k] == v.components[b.start + k * b.step]
  {
    if s.step != Some(0) {
      var b := Indices(s, v.Len()).value;
      SelectIsStride(v.components, b);
    }
  }

  /**
   * `v[lo:hi]`, for any integers lo and hi: both bounds are resolved as for a
   * step of 1, and the result is the vector of the components between them
   * (empty when the resolved stop does not lie past the resolved start).
   */
  lemma GetItemUnitSlice(v: Vector, lo: int, hi: int)
    ensures var a, b := Adjust(lo, v.Len(), 1), Adjust(hi, v.Len(), 1);
      GetItem(v, SliceKey(Slice(Some(lo), Some(hi), None)))
        == Success(SubVector(Vector(v.components[a..if b < a then a else b])))
  {
    var a, c := Adjust(lo, v.Len(), 1), Adjust(hi, v.Len(), 1);
    var b := Bounds(a, c, 1);
    assert Indices(Slice(Some(lo), Some(hi), None), v.Len()) == Success(b);
    SelectLength(v.components, b);
    var w := Select(v.components, b);
    var hi' := if c < a then a else c;
    assert |w| == hi' - a;
    forall k | 0 <= k < |w| ensures w[k] == v.components[a..hi'][k] {
      SelectAt(v.components, b, k);
    }
    assert w == v.components[a..hi'];
  }

  /** `v[::-1]` is the vector with the components in reverse order. */
  lemma GetItemReversed(v: Vector)
    ensures GetItem(v, SliceKey(Slice(None, None, Some(-1)))).Success?
    ensures var w := GetItem(v, SliceKey(Slice(None, None, Some(-1)))).value.vector;
      && w.Len() == v.Len()
      && forall k :: 0 <= k < v.Len() ==> w.components[k] == v.components[v.Len() - 1 - k]
  {
    var n: int := v.Len();
    var b := Bounds(n - 1, -1, -1);
    assert Indices(Slice(None, None, Some(-1)), n) == Success(b);
    SelectLength(v.components, b);
    var w := Select(v.components, b);
    forall k | 0 <= k < n ensures w[k] == v.components[n - 1 - k] {
      SelectAt(v.components, b, k);
    }
  }

  // ---------------------------------------------------------------------
  // Attribute reads

  /** The names of the first four components, in order. */
  const SHORTCUT_NAMES: string := "xyzt"

  /** `str.find` for a single character: its first position, or -1. */
  function Find(s: string, c: char): (p: int)
    ensures -1 <= p < |s|
    ensures p == -1 <==> c !in s
    ensures p >= 0 ==> s[p] == c && c !in s[..p]
  {
    if s == [] then -1
    else if s[0] == c then 0
    else
      var p := Find(s[1..], c);
      if p < 0 then -1
      else
        assert s[..p + 1] == [s[0]] + s[1..][..p];
        p + 1
  }

  /**
   * `__getattr__`, reached for names ordinary lookup does not find. A
   * one-character name is looked up in "xyzt", and the guard compares the
   * position with the length of "xyzt" rather than with the vector's length,
   * so every found name indexes the components and a position past the end
   * of the vector raises IndexError.
   */
  function GetAttr(v: Vector, name: string): (r: Result<Double, Error>)
    ensures r.Failure? ==> r.error == AttributeMissing || r.error == IndexError
  {
    if |name| == 1 then
      var position := Find(SHORTCUT_NAMES, name[0]);
      if 0 <= position <= |SHORTCUT_NAMES| then ComponentAt(v.components, position)
      else Failure(AttributeMissing)
    else Failure(AttributeMissing)
  }

  /**
   * Reading shortcut p (x, y, z or t) gives component p when the vector has
   * one, and raises IndexError, not AttributeError, when it is too short.
   */
  lemma GetAttrShortcut(v: Vector, p: nat)
    requires p < |SHORTCUT_NAMES|
    ensures GetAttr(v, [SHORTCUT_NAMES[p]])
         == if p < v.Len() then Success(v.components[p]) else Failure(IndexError)
  {
    assert Find(SHORTCUT_NAMES, SHORTCUT_NAMES[p]) == p;
  }

  /** Every other name, of one character or of several, raises AttributeError. */
  lemma GetAttrOther(v: Vector, name: string)
    requires |name| != 1 || name[0] !in SHORTCUT_NAMES
    ensures GetAttr(v, name) == Failure(AttributeMissing)
  {
  }

  /**
   * The evidently intended `__getattr__`: the guard compares the position
   * with the vector's length, so a shortcut past the end of the vector is an
   * attribute that does not exist.
   */
  function GetAttrIntended(v: Vector, name: string): (r: Result<Double, Error>)
    ensures r.Failure? ==> r.error == AttributeMissing
  {
    if |name| == 1 then
      var position := Find(SHORTCUT_NAMES, name[0]);
      if 0 <= position < v.Len() then Success(v.components[position])
      else Failure(AttributeMissing)
    else Failure(AttributeMissing)
  }

  /**
   * The intended read succeeds exactly for the shortcuts the vector has, and
   * agrees with the code as written on every read that succeeds there.
   */
  lemma GetAttrIntendedShortcut(v: Vector, name: string)
    ensures GetAttrIntended(v, name).Success?
        <==> |name| == 1 && name[0] in SHORTCUT_NAMES && Find(SHORTCUT_NAMES, name[0]) < v.Len()
    ensures GetAttrIntended(v, name).Success? ==> GetAttr(v, name) == GetAttrIntended(v, name)
    ensures GetAttr(v, name).Success? ==> GetAttrIntended(v, name) == GetAttr(v, name)
  {
  }

  /** The discrepancy: `Vector([c]).y` raises IndexError, where AttributeError was meant. */
  lemma ShortVectorShortcut(c: Double)
    ensures GetAttr(Vector([c]), "y") == Failure(IndexError)
    ensures GetAttrIntended(Vector([c]), "y") == Failure(AttributeMissing)
  {
    GetAttrShortcut(Vector([c]), 1);
    assert Find(SHORTCUT_NAMES, 'y') == 1;
  }

  // ---------------------------------------------------------------------
  // Attribute writes

  /**
   * What `__setattr__` does with a write: refuse it, or hand it on to the
   * object's own attribute machinery (`super().__setattr__`).
   */
  datatype WriteOutcome = Refused(error: Error) | Delegated

  /**
   * `__setattr__`: a one-character name in "xyzt" is read-only, any other
   * one-character name that `str.islower` (the parameter `isLower`) accepts
   * is reserved; everything else is handed on. No case touches the
   * components.
   */
  function SetAttr(key: string, isLower: char -> bool): (r: WriteOutcome)
    ensures r.Refused? <==> |key| == 1 && (key[0] in SHORTCUT_NAMES || isLower(key[0]))
    ensures r.Refused? ==> (r.error == ReadOnlyAttribute <==> key[0] in SHORTCUT_NAMES)
    ensures r.Refused? ==> (r.error == ProtectedNamespace <==> key[0] !in SHORTCUT_NAMES)
  {
    if |key| == 1 then
      if key[0] in SHORTCUT_NAMES then Refused(ReadOnlyAttribute)
      else if isLower(key[0]) then Refused(ProtectedNamespace)
      else Delegated
    else Delegated
  }

  /** Writing x, y, z or t is refused as read-only, whatever `isLower` says. */
  lemma SetAttrShortcut(p: nat, isLower: char -> bool)
    requires p < |SHORTCUT_NAMES|
    ensures SetAttr([SHORTCUT_NAMES[p]], isLower) == Refused(ReadOnlyAttribute)
  {
  }

  /** Writing any other ASCII lowercase letter is refused as protected namespace. */
  lemma SetAttrLowercase(c: char, isLower: char -> bool)
    requires 'a' <= c <= 'z' && c !in SHORTCUT_NAMES
    requires forall l :: 'a' <= l <= 'z' ==> isLower(l)
    ensures SetAttr([c], isLower) == Refused(ProtectedNamespace)
  {
  }
}
