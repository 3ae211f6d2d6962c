/** The kind table `typeMap` (arraybuffer-struct.js:27-125): every primitive
    kind a leaf can have, its element size, and how its accessors behave. */
module Kinds {
  import opened Common

  datatype Kind =
    | I8 | U8 | U8c | I16 | U16 | I32 | U32 | I64 | U64
    | F16 | F32 | F64
    | Bool | Utf8
  {
    /** `BYTES_PER_ELEMENT` of the kind's typed-array constructor. */
    function Size(): nat {
      match this
      case I8 | U8 | U8c | Bool | Utf8 => 1
      case I16 | U16 | F16 => 2
      case I32 | U32 | F32 => 4
      case I64 | U64 | F64 => 8
    }

    /** A byte offset at which an element of the kind may start. */
    predicate AlignsAt(off: nat) {
      off % Size() == 0
    }

    /** The identifier naming the kind in a type tag. */
    function Name(): string {
      match this
      case I8 => "i8"
      case U8 => "u8"
      case U8c => "u8c"
      case I16 => "i16"
      case U16 => "u16"
      case I32 => "i32"
      case U32 => "u32"
      case I64 => "i64"
      case U64 => "u64"
      case F16 => "f16"
      case F32 => "f32"
      case F64 => "f64"
      case Bool => "bool"
      case Utf8 => "utf8"
    }

    predicate IsFloat() { F16? || F32? || F64? }

    /** Kinds read and written as integers through DataView. */
    predicate IsInteger() { !IsFloat() && !Bool? && !Utf8? }

    /** Kinds whose DataView getter is getIntN / getBigInt64. */
    predicate IsSigned() { I8? || I16? || I32? || I64? }

    /** Kinds whose stores convert with ToBigInt (setBigInt64,
        BigInt64Array and their unsigned twins), which throws a TypeError
        for `undefined` and `null`. */
    predicate IsBigInt() { I64? || U64? }

    /** Kinds whose `arrayLogic` is not null: every kind except bool. For utf8
        it is the text get/set pair, for the others a zero-copy typed array. */
    predicate HasArrayLogic() { !Bool? }
  }

  /** Every element size is a power of two no larger than 8. */
  lemma SizeIsPowerOfTwo(k: Kind)
    ensures k.Size() in {1, 2, 4, 8}
  {
  }

  /** `typeMap[id].array.BYTES_PER_ELEMENT`: the kind an identifier names,
      or None when the lookup would throw (no entry, or one of the `utf16` /
      `utf32` placeholders, which have no `array`). */
  function Lookup(id: string): (r: Option<Kind>)
    ensures r.Some? ==> r.value.Name() == id
    ensures r.None? ==> forall k: Kind :: k.Name() != id
  {
    if id == "i8" then Some(I8)
    else if id == "u8" then Some(U8)
    else if id == "u8c" then Some(U8c)
    else if id == "i16" then Some(I16)
    else if id == "u16" then Some(U16)
    else if id == "i32" then Some(I32)
    else if id == "u32" then Some(U32)
    else if id == "i64" then Some(I64)
    else if id == "u64" then Some(U64)
    else if id == "f16" then Some(F16)
    else if id == "f32" then Some(F32)
    else if id == "f64" then Some(F64)
    else if id == "bool" then Some(Bool)
    else if id == "utf8" then Some(Utf8)
    else None
  }

  /** Distinct kinds have distinct names, so a name looks up its own kind. */
  lemma LookupName(k: Kind)
    ensures Lookup(k.Name()) == Some(k)
  {
  }

  /** The two text placeholders of the table are not usable kinds. */
  lemma PlaceholdersRejected()
    ensures Lookup("utf16").None? && Lookup("utf32").None?
  {
  }
}
