# Int32Pair and StringPair of System.Xml.Xsl

A Dafny model of `Pair.cs` from the XSLT part of System.Private.Xml. The file declares two
immutable value types that the XSLT code uses as composite keys and as bundled return values:

- `Int32Pair` holds two `int`s. It has the accessors `Left` and `Right`. It overrides
  `Equals(object?)`, which is true only for a boxed `Int32Pair` with the same two fields. It
  overrides `GetHashCode()`, which is the `^` of the two components' hash codes.
- `StringPair` holds two strings, either of which may be null. It has the accessors `Left` and
  `Right` and nothing else.

Both types are pure values, so the model has datatypes and functions only (files `int32.dfy`,
`pair.dfy`, `wrappers.dfy`):

- `Int32.int32` is the range of a C# `int`.
- `Int32.Xor` is C#'s `^` on two `int`s. It takes the exclusive or of the 32-bit two's-complement
  representations, defined bit by bit in `Int32.XorBits`.
- `Int32.GetHashCode` is `Int32.GetHashCode` of .NET, which returns the value itself.
- `Xsl.Obj` is the `object?` argument of `Equals`. It is a tagged sum: null, a boxed
  `Int32Pair`, a boxed `StringPair`, a boxed `int`, or any other object.
- `Xsl.StringPair` holds `Option<string>` components, since the constructor does not check
  for null.

## Model

| member | source | states |
|---|---|---|
| `Xsl.Int32PairAccessors` | src/libraries/System.Private.Xml/src/System/Xml/Xsl/Pair.cs:14-21 | the constructor accepts any two `int`s, and `Left`/`Right` give back exactly what it was given |
| `Xsl.Int32Pair.Equals` | src/libraries/System.Private.Xml/src/System/Xml/Xsl/Pair.cs:23-32 | `Equals(other)` holds if and only if `other` is this very pair value, boxed |
| `Xsl.EqualsComponentwise` | src/libraries/System.Private.Xml/src/System/Xml/Xsl/Pair.cs:25-28 | against another `Int32Pair`, `Equals` holds if and only if both `Left` and both `Right` are equal |
| `Xsl.EqualsRejectsOtherValues` | src/libraries/System.Private.Xml/src/System/Xml/Xsl/Pair.cs:25-31 | null, a `StringPair`, an `int` and every other non-`Int32Pair` value are never equal to an `Int32Pair` |
| `Xsl.EqualsIsEquivalence` | src/libraries/System.Private.Xml/src/System/Xml/Xsl/Pair.cs:28 | on `Int32Pair` arguments, `Equals` is reflexive, symmetric and transitive |
| `Xsl.Int32Pair.GetHashCode` | src/libraries/System.Private.Xml/src/System/Xml/Xsl/Pair.cs:34-37 | the hash is 0 if and only if the components are equal; it is negative if and only if their signs differ; `^` with either component gives back the other |
| `Xsl.EqualsAgreesWithHash` | src/libraries/System.Private.Xml/src/System/Xml/Xsl/Pair.cs:23-37 | whatever `Equals` accepts is a boxed `Int32Pair` with the same hash code |
| `Xsl.HashIgnoresOrder` | src/libraries/System.Private.Xml/src/System/Xml/Xsl/Pair.cs:28-36 | `Int32Pair(a, b)` and `Int32Pair(b, a)` hash alike, but they are `Equals` only when `a == b` |
| `Xsl.HashOfEqualComponents` | src/libraries/System.Private.Xml/src/System/Xml/Xsl/Pair.cs:36 | `Int32Pair(a, a)` hashes to 0 for every `a` |
| `Xsl.HashWithZeroComponent` | src/libraries/System.Private.Xml/src/System/Xml/Xsl/Pair.cs:36 | `Int32Pair(a, 0)` and `Int32Pair(0, a)` hash to `a` |
| `Xsl.StringPairAccessors` | src/libraries/System.Private.Xml/src/System/Xml/Xsl/Pair.cs:45-52 | the constructor accepts any two strings, null and empty ones included, and `Left`/`Right` give them back unchanged |
| `Int32.Unsigned` | src/libraries/System.Private.Xml/src/System/Xml/Xsl/Pair.cs:36 | the 32-bit two's-complement representation of an `int` that `^` works on: the value itself when non-negative, the value plus 2^32 when negative |
| `Int32.Signed` | src/libraries/System.Private.Xml/src/System/Xml/Xsl/Pair.cs:36 | the `int` a 32-bit pattern stands for: patterns below 2^31 are non-negative, the rest are negative |
| `Int32.SignedUnsigned` | src/libraries/System.Private.Xml/src/System/Xml/Xsl/Pair.cs:36 | reading the representation of an `int` back as an `int` gives the original value |
| `Int32.XorBits` | src/libraries/System.Private.Xml/src/System/Xml/Xsl/Pair.cs:36 | the bitwise exclusive or of the low `width` bits fits in `width` bits |
| `Int32.Xor` | src/libraries/System.Private.Xml/src/System/Xml/Xsl/Pair.cs:36 | C#'s `^` on two `int`s: the two's-complement representation of the result is the bitwise exclusive or of the 32-bit representations of the operands |
| `Int32.GetHashCode` | src/libraries/System.Private.Xml/src/System/Xml/Xsl/Pair.cs:36 | `int.GetHashCode()` is the identity, as in .NET: an `int` is its own hash code |
| `Int32.XorCommutes` | src/libraries/System.Private.Xml/src/System/Xml/Xsl/Pair.cs:36 | `a ^ b == b ^ a` on `int`s |
| `Int32.XorSelf` | src/libraries/System.Private.Xml/src/System/Xml/Xsl/Pair.cs:36 | `a ^ a == 0` on `int`s |
| `Int32.XorZeroIff` | src/libraries/System.Private.Xml/src/System/Xml/Xsl/Pair.cs:36 | `a ^ b == 0` if and only if `a == b` |
| `Int32.XorCancel` | src/libraries/System.Private.Xml/src/System/Xml/Xsl/Pair.cs:36 | `(a ^ b) ^ b == a`: `^` with the same operand undoes itself |
| `Int32.XorZero` | src/libraries/System.Private.Xml/src/System/Xml/Xsl/Pair.cs:36 | `a ^ 0 == a` |
| `Int32.XorSign` | src/libraries/System.Private.Xml/src/System/Xml/Xsl/Pair.cs:36 | `a ^ b` is negative if and only if exactly one of `a` and `b` is negative |

## Left out

- The internals of .NET's `Int32.GetHashCode` are not part of this model. `Int32.GetHashCode` is the identity, which is what .NET's implementation returns for an `int`.
- Boxing and unboxing in `Equals(object?)` are not modelled. The argument is the tagged sum `Xsl.Obj`, and the cast at line 27 is the match on its `BoxedInt32Pair` case.
- `StringPair` has no `Equals` or `GetHashCode` override in the source. .NET's reflection-based default `ValueType.Equals`/`GetHashCode` is library behaviour outside this file, so the model gives `StringPair` no equality of its own. Dafny's built-in `==` on the datatype is not used to stand for it.
- String contents are `seq<char>`, and a Dafny `char` is a Unicode scalar value. A .NET string is a sequence of UTF-16 code units, so a .NET string that holds an unpaired surrogate has no counterpart in the model, and a surrogate pair is one `char` here but two in .NET. This does not affect the properties stated, because the pair never looks inside its strings.
