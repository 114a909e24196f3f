# Vector: a Dafny model of an n-dimensional vector value type

The repository defines one Python class, `Vector` (`vector.py`): an ordered,
fixed-length sequence of doubles stored in an `array('d')`. This project models
the discrete logic of that class and proves its properties:

- **Construction and length.** `Vectors.Vector` is a datatype over `seq<Double>`.
  `__init__` assigns the component array once and nothing replaces it, so the
  model treats a vector as an immutable value. `Vector.Len` is `__len__`.
- **Components.** A `Doubles.Double` is known only by its 64-bit IEEE-754 bit
  pattern. Its 8-byte machine encoding is that pattern's little-endian bytes,
  and the model proves that this encoding is injective and that it round-trips.
- **Byte codec.** `Vectors.Encode` is `__bytes__`: the tag byte `ord('d')` =
  0x64, followed by each component's 8 bytes in storage order.
  `Vectors.Decode` is `from_bytes`. The model proves the layout of the
  encoding, the round trip in both directions, and the error paths.
- **Indexing.** `Access.GetItem` is `__getitem__`. An integer key follows
  Python's negative-index convention, and an index out of range raises
  IndexError. A slice key returns a new vector. `Slices` models how
  `array.__getitem__` resolves the slice's start, stop and step. Any other
  key raises TypeError.
- **Attribute hooks.** `Access.GetAttr` is `__getattr__`, which maps the names
  x, y, z, t to positions 0-3. `Access.SetAttr` is `__setattr__`, which
  refuses writes to those four names and to every other single lowercase
  letter.
- **Equality and hash.** `Vectors.Equal` is `__eq__`. `Vectors.Hash` is the
  XOR fold of the element hashes, starting from 0. Float `==` and float
  `hash` are function parameters (`eq`, `h`), so the model assumes nothing
  about them. In particular it does not assume reflexivity, because NaN is
  not equal to itself.

Files: `wrappers.dfy` (Option, Result), `doubles.dfy` (module `Doubles`),
`vector.dfy` (module `Vectors`), `slices.dfy` (module `Slices`),
`access.dfy` (module `Access`).

Three behaviours of the code a reader may not expect:

- Reading `.y` on a one-element vector raises IndexError, not
  AttributeError. The guard at `vector.py:64` compares the position with
  `len("xyzt")`. See Findings.
- `from_bytes` raises IndexError on an empty buffer, because `octets[0]`
  is out of range. It raises TypeError when `memoryview.cast` refuses a
  payload whose length is not a multiple of 8. It never checks the tag
  against 'd' itself.
- `__eq__` calls `len(other)`, so comparing with an object that has no
  length raises TypeError instead of returning False. The model compares a
  vector with any sequence: another vector's components, or a list of
  floats or ints, with the element comparison as the parameter `eq`.

## Model

| member | source | states |
|---|---|---|
| Doubles.EncodeItem | vector.py:30 | a double occupies exactly 8 bytes in the encoding; see the lemmas below for its round trip |
| Doubles.DecodeItem | vector.py:87 | no contract of its own; `DecodeItemOfEncodeItem` and `EncodeItemOfDecodeItem` state that it inverts `EncodeItem` |
| Doubles.EncodeItemInjective | vector.py:30 | two doubles have the same 8 bytes exactly when they are the same double |
| Doubles.DecodeItemOfEncodeItem | vector.py:87 | reinterpreting a double's 8 bytes gives that double back |
| Doubles.EncodeItemOfDecodeItem | vector.py:87 | every 8-byte group is the encoding of the double it is read as |
| Vectors.Encode | vector.py:29-30 | `bytes(v)` has 1 + 8·len(v) bytes and byte 0 is 0x64 (`ord('d')`) |
| Vectors.EncodeLayout | vector.py:29-30 | bytes 1+8i .. 8+8i of `bytes(v)` are the encoding of component i |
| Vectors.Decode | vector.py:84-88 | decoding succeeds exactly when there is a tag byte, it is 'd', and the payload is a multiple of 8 bytes; the result has (len − 1)/8 components |
| Vectors.DecodeEncode | vector.py:84-88 | `from_bytes(bytes(v))` succeeds with the same components in the same order |
| Vectors.EncodeDecode | vector.py:84-88 | a buffer that decodes is exactly the encoding of the decoded vector |
| Vectors.DecodeErrors | vector.py:86-88 | an empty buffer raises IndexError; with tag 'd', a payload that is not a multiple of 8 bytes raises TypeError; the tag byte alone decodes to the empty vector |
| Vectors.Vector.Len | vector.py:35-36 | no contract of its own; `Encode` and `Decode` state the byte length in terms of it |
| Vectors.Equal | vector.py:32-33 | no contract of its own; `EqualIff` states what it means |
| Vectors.EqualIff | vector.py:32-33 | `v == other` holds iff the lengths match and every aligned pair of elements is equal, for `other` a sequence of any element type |
| Vectors.EqualSymmetric | vector.py:32-33 | vector equality is symmetric whenever float `==` is |
| Vectors.EqualSelf | vector.py:32-33 | `v == v` holds iff every component equals itself, so one NaN makes it false |
| Vectors.RoundTripEqual | vector.py:84-88 | the decoded copy of `bytes(v)` compares equal to v iff every component equals itself |
| Vectors.XorFold | vector.py:39-40 | no contract of its own; `XorFoldRemove` and `XorFoldPermutation` state its properties |
| Vectors.Hash | vector.py:38-40 | no contract of its own; `HashEmpty`, `HashPermutation` and `HashConsistentWithEqual` state its properties |
| Vectors.HashEmpty | vector.py:38-40 | the empty vector hashes to 0 |
| Vectors.XorFoldRemove | vector.py:38-40 | taking any one element out of the fold leaves the fold XOR-ed with that element's hash |
| Vectors.HashPermutation | vector.py:38-40 | permuting the components does not change the hash |
| Vectors.HashConsistentWithEqual | vector.py:32-40 | when equal floats hash alike, equal vectors hash alike |
| Slices.Adjust | vector.py:51 | a bound in [0, n) is kept and one in [−n, 0) counts from the end; a bound ≥ n becomes n (step > 0) or n − 1 (step < 0), and a bound below −n becomes 0 or −1 |
| Slices.Indices | vector.py:51 | a zero step raises ValueError; otherwise a given step is kept and an omitted one is 1, a given start or stop is resolved by `Adjust`, an omitted start is 0 (step > 0) or n − 1 (step < 0), and an omitted stop is n or −1 |
| Slices.Select | vector.py:51 | no contract of its own; `SelectLength`, `SelectAt` and `SelectIsStride` state what it selects |
| Slices.SelectLength | vector.py:51 | a slice selects ⌈(stop − start)/step⌉ elements (zero when the range is empty) |
| Slices.SelectAt | vector.py:51 | the k-th selected element is the one at position start + k·step |
| Slices.SelectIsStride | vector.py:51 | the selection equals the comprehension over start, start + step, ... |
| Access.ComponentAt | vector.py:54 | an integer index succeeds iff −n ≤ i < n, giving component i or n + i; otherwise it raises IndexError |
| Access.GetItem | vector.py:48-57 | any other key raises TypeError; an integer key succeeds iff it is in range; a slice key succeeds iff its step is not zero |
| Access.GetItemInteger | vector.py:53-54 | index i gives component i for 0 ≤ i < n and component n + i for −n ≤ i < 0; any other integer raises IndexError |
| Access.GetItemSlice | vector.py:50-51 | a slice gives a new vector of the strided selection of the resolved bounds; a zero step raises ValueError |
| Access.GetItemUnitSlice | vector.py:50-51 | `v[lo:hi]` for any integers lo, hi is the vector of components a .. b − 1, where a and b are lo and hi resolved for step 1 (empty when b ≤ a) |
| Access.GetItemReversed | vector.py:50-51 | `v[::-1]` is the vector with the components in reverse order |
| Access.Find | vector.py:62 | `str.find` of one character gives its first position, or −1 exactly when it does not occur |
| Access.GetAttr | vector.py:59-67 | `__getattr__` fails only with AttributeError or IndexError |
| Access.GetAttrShortcut | vector.py:61-65 | reading the p-th of x, y, z, t gives component p, or raises IndexError (not AttributeError) when the vector is shorter than p + 1 |
| Access.GetAttrOther | vector.py:61-67 | a one-character name outside "xyzt", and every longer name, raises AttributeError |
| Access.GetAttrIntended | vector.py:64 | corrected read: it only ever fails with AttributeError |
| Access.GetAttrIntendedShortcut | vector.py:64 | the corrected read succeeds exactly for shortcuts within the vector's length, and it agrees with the code as written wherever either read succeeds |
| Access.ShortVectorShortcut | vector.py:64-65 | `Vector([c]).y` raises IndexError as written, and AttributeError under the corrected guard |
| Access.SetAttr | vector.py:69-82 | a write is refused iff the name is one character that is in "xyzt" (read-only) or that is lowercase (protected namespace); everything else is handed on |
| Access.SetAttrShortcut | vector.py:72-73 | writing x, y, z or t is always refused as read-only |
| Access.SetAttrLowercase | vector.py:74-75 | writing any other lowercase letter a-z is refused as protected namespace |

## Left out

- `__abs__` and `__bool__` (vector.py:42-46) are left out. They compute a floating-point square root of a sum of squares, and the model does not interpret floats.
- `__repr__` and `__str__` (vector.py:20-27) are left out. Their output depends on `reprlib` truncation and on Python's float-to-text formatting.
- `__iter__` (vector.py:17-18) is not a separate member. Iterating yields `components` in order, and `__eq__` and `__hash__` are modelled over that sequence directly.
- Float `==` and float `hash` are parameters, not IEEE-754 or Python's numeric hash. The model therefore assumes no reflexivity, and it does not model ±0.0.
- The 8-byte encoding of a double is fixed to little-endian. The native byte order of other machines is not modelled.
- `__init__` coerces arbitrary numbers through `array('d', iterable)`. The model instead takes the components as a `seq<Double>`.
- `Vectors.Decode`: type tags other than 'd' give `UnmodelledTypeCode`. The real code passes any tag to `memoryview.cast`, whose other formats and int-to-double conversions are not modelled.
- `Vectors.Hash` is the value `__hash__` returns, as a 64-bit two's-complement pattern. It does not model that the built-in `hash()` turns a result of −1 into −2.
- `Access.SetAttr` does not model what `super().__setattr__` does with a write it hands on. Because of `__slots__`, that fallback only succeeds for `_components`. `SetAttr` takes no vector, so a refused write cannot touch the components.
- `Access.SetAttr`: `str.islower` is the parameter `isLower`. `SetAttrLowercase` covers the ASCII letters; non-ASCII lowercase letters follow whatever `isLower` says about them.
- Keys are mathematical integers, so nothing is bounded by `Py_ssize_t`. Clamping a slice bound or step to that range selects the same elements, because a vector is shorter than 2^63.
- A slice field that is not an integer or None, and a key with `__index__`, are not modelled. `GetItem` receives keys that are already classified.

## Findings

| source | as written | input that shows it | evidently intended | confidence | as-written member | corrected member |
|---|---|---|---|---|---|---|
| vector.py:64 | `0 <= position <= len(cls.shortcut_names)` always passes for a found name, so the read indexes the components | `Vector([c]).y` raises IndexError (so `hasattr(v, "y")` raises too) | compare with the vector's length, `0 <= position < len(self._components)`, so a missing shortcut raises AttributeError | medium, not executed | Access.ShortVectorShortcut | Access.GetAttrIntended |
