/**
  The type indices that value cells branch on; everything from STATIC_OBJECT_BEGIN on is a
  heap object, and text of up to seven bytes has an inline and a heap form.
*/
module TypeIndices {
  const NONE: nat := 0
  const INT: nat := 1
  const RAW_STR: nat := 8
  const BYTE_ARRAY_PTR: nat := 9
  const OBJECT_RVALUE_REF: nat := 10
  const SMALL_STR: nat := 11
  const SMALL_BYTES: nat := 12
  const STATIC_OBJECT_BEGIN: nat := 64
  const STR: nat := 65
  const BYTES: nat := 66
  const BIG_INT: nat := 78
}
