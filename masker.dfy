/** The `masker` object of masker/masker.go: one mutable glyph, the entry
    points `MaskSensitiveData`, `Sanitize` and `SetMask`, and the field by
    field walk `maskStruct`. */
module Masker {
  import opened Wrappers
  import opened Policy
  import opened Redact

  class Masker {
    /** The glyph written over masked bytes. */
    var mask: string

    /** `New()`: a masker with the default glyph "*". */
    constructor ()
      ensures mask == DEFAULT_MASK
    {
      mask := DEFAULT_MASK;
    }

    /** `SetMask(c)`: every later call masks with `c`, whatever its length. */
    method SetMask(c: string)
      modifies this
      ensures mask == c
    {
      mask := c;
    }

    /** `Sanitize(str, level)`: a level that is neither `FullMask` nor
        `PartialMask` is read as `PartialMask`. */
    function Sanitize(str: string, level: int): (r: string)
      reads this
      ensures level == FULL_MASK ==> r == Policy.Sanitize(str, mask, FULL_MASK)
      ensures level != FULL_MASK ==> r == Policy.Sanitize(str, mask, PARTIAL_MASK)
    {
      var normalized := if level != FULL_MASK && level != PARTIAL_MASK then PARTIAL_MASK else level;
      Policy.Sanitize(str, mask, normalized)
    }

    /** `MaskSensitiveData(v)`: a struct comes back as a pointer to its
        masked clone; a value of any other kind (a pointer to a struct
        included) comes back as it is. No error is ever returned. */
    method MaskSensitiveData(v: Value) returns (res: Result<Value, MaskError>)
      ensures v.Rec? ==> res == Success(Ptr(Some(Rec(MaskRecord(mask, v.r)))))
      ensures !v.Rec? ==> res == Success(v)
    {
      match v {
        case Rec(r) =>
          var c := MaskStruct(Some(r));
          match c {
            case Failure(err) => return Failure(err);
            case Success(clone) => return Success(Ptr(Some(Rec(clone))));
          }
        case _ =>
          return Success(v);
      }
    }

    /** `maskStruct(s)`: for nil an error; for a struct a clone built field by
        field into a zero-valued struct, exactly the clone `MaskRecord`
        describes. The input is a value and is never written. */
    method MaskStruct(s: Option<Record>) returns (res: Result<Record, MaskError>)
      ensures res == MaskStructOf(mask, s)
      decreases if s.Some? then s.value else Record([])
    {
      if s.None? {
        return Failure(NilValue);
      }
      var fields := s.value.fields;
      var n := |fields|;
      var cloned := new Field[n](j requires 0 <= j < n => ZeroField(fields[j]));
      for i := 0 to n
        invariant forall j :: 0 <= j < i ==> cloned[j] == MaskField(mask, fields[j])
        invariant forall j :: i <= j < n ==> cloned[j] == ZeroField(fields[j])
      {
        var f := fields[i];
        match f.v {
          case Str(str) =>
            if ShouldMask(f.tag) {
              cloned[i] := Field(f.name, f.tag, Str(ApplyMask(mask, str, f.tag)));
            } else {
              cloned[i] := f;
            }
          case Rec(nested) =>
            var tmp := MaskStruct(Some(nested));
            match tmp {
              case Failure(err) => return Failure(err);
              case Success(c) => cloned[i] := Field(f.name, f.tag, Rec(c));
            }
          case StrSlice(None) =>
          case StrSlice(Some(values)) =>
            var nv := MaskStrings(values, f.tag);
            assert nv == MaskValue(mask, f.tag, f.v).strs.value;
            cloned[i] := Field(f.name, f.tag, StrSlice(Some(nv)));
          case RecSlice(NilRecords) =>
          case RecSlice(Records(elems)) =>
            var nv := MaskRecords(elems);
            match nv {
              case Failure(err) => return Failure(err);
              case Success(cs) =>
                assert cs == MaskValue(mask, f.tag, f.v).recs.items;
                cloned[i] := Field(f.name, f.tag, RecSlice(Records(cs)));
            }
          case OtherSlice(_) =>
          case _ =>
            cloned[i] := f;
        }
      }
      assert cloned[..] == MaskRecord(mask, s.value).fields;
      return Success(Record(cloned[..]));
    }

    /** The `[]string` case of `maskStruct`: a new slice of the same length,
        each element masked on its own under the field's tag. */
    method MaskStrings(values: seq<string>, tag: string) returns (nv: seq<string>)
      ensures |nv| == |values|
      ensures forall k :: 0 <= k < |values| ==> nv[k] == MaskString(mask, tag, values[k])
    {
      var a := new string[|values|];
      for j := 0 to |values|
        invariant forall k :: 0 <= k < j ==> a[k] == MaskString(mask, tag, values[k])
      {
        if ShouldMask(tag) {
          a[j] := ApplyMask(mask, values[j], tag);
        } else {
          a[j] := values[j];
        }
      }
      nv := a[..];
    }

    /** The `[]struct` case of `maskStruct`: the clones of the elements, in
        order, appended one by one to an empty slice. */
    method MaskRecords(elems: seq<Record>) returns (res: Result<seq<Record>, MaskError>)
      ensures res.Success?
      ensures |res.value| == |elems|
      ensures forall k :: 0 <= k < |elems| ==> res.value[k] == MaskRecord(mask, elems[k])
      decreases elems
    {
      var nv: seq<Record> := [];
      for j := 0 to |elems|
        invariant |nv| == j
        invariant forall k :: 0 <= k < j ==> nv[k] == MaskRecord(mask, elems[k])
      {
        var tmp := MaskStruct(Some(elems[j]));
        match tmp {
          case Failure(err) => return Failure(err);
          case Success(c) => nv := nv + [c];
        }
      }
      return Success(nv);
    }
  }
}
