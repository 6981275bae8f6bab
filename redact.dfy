/** The values `maskStruct` walks (Go's reflected kinds, as a closed
    datatype), the zero values `reflect.New` starts a clone from, and the
    clone `maskStruct` builds, as recursive functions. */
module Redact {
  import opened Wrappers
  import opened Policy

  /** A Go value as the masker sees its kind. A nil slice is `None` (or
      `NilRecords`).
      `Scalar` stands for numbers and booleans, `Opaque` for every other kind
      the masker copies as it is (maps, arrays, interfaces, channels,
      functions). `Nil` is the untyped nil interface, which is never the value
      of a struct field. */
  datatype Value =
    | Nil
    | Str(s: string)
    | Scalar(n: int)
    | Rec(r: Record)
    | StrSlice(strs: Option<seq<string>>)
    | RecSlice(recs: RecordSlice)
    | OtherSlice(elems: Option<seq<Value>>)
    | Ptr(target: Option<Value>)
    | Opaque(id: int)

  /** A slice of structs; `NilRecords` is the nil slice. (Its own datatype
      rather than an `Option`, so that its elements are structurally smaller
      than the value holding them.) */
  datatype RecordSlice = NilRecords | Records(items: seq<Record>)

  /** A struct field: its name, its `sensitive` tag ("" when absent) and its
      value. */
  datatype Field = Field(name: string, tag: string, v: Value)

  /** A struct value: its fields in declaration order. */
  datatype Record = Record(fields: seq<Field>)

  /** The only error `maskStruct` reports. */
  datatype MaskError = NilValue

  /** The zero value of the kind of `v`: what a field of a struct freshly
      made by `reflect.New` holds. */
  function Zero(v: Value): Value
    decreases v
  {
    match v
    case Nil => Nil
    case Str(_) => Str("")
    case Scalar(_) => Scalar(0)
    case Rec(r) => Rec(ZeroRecord(r))
    case StrSlice(_) => StrSlice(None)
    case RecSlice(_) => RecSlice(NilRecords)
    case OtherSlice(_) => OtherSlice(None)
    case Ptr(_) => Ptr(None)
    case Opaque(_) => Opaque(0)
  }

  function ZeroField(f: Field): Field
    decreases f
  {
    Field(f.name, f.tag, Zero(f.v))
  }

  /** The zero value of the struct type of `r`. */
  function ZeroRecord(r: Record): Record
    decreases r
  {
    Record(seq(|r.fields|, i requires 0 <= i < |r.fields| => ZeroField(r.fields[i])))
  }

  /** A string of a field tagged `tag`: masked with `applyMask` when the tag
      asks for masking, the same string otherwise. */
  function MaskString(mask: string, tag: string, s: string): string
  {
    if ShouldMask(tag) then ApplyMask(mask, s, tag) else s
  }

  /** The clone `maskStruct` builds of a non-nil struct value, with glyph
      `mask`. */
  function MaskRecord(mask: string, r: Record): Record
    decreases r
  {
    Record(seq(|r.fields|, i requires 0 <= i < |r.fields| => MaskField(mask, r.fields[i])))
  }

  /** The field of the clone that corresponds to `f`. */
  function MaskField(mask: string, f: Field): Field
    decreases f
  {
    Field(f.name, f.tag, MaskValue(mask, f.tag, f.v))
  }

  /** The value a field of the clone holds, by the kind of the input field:
      strings and string slices are masked under the field's tag, structs
      and struct slices are cloned field by field whatever the tag, nil
      slices and slices of any other element kind are left at the zero
      value, and every other kind is copied. */
  function MaskValue(mask: string, tag: string, v: Value): Value
    decreases v
  {
    match v
    case Str(s) => Str(MaskString(mask, tag, s))
    case Rec(r) => Rec(MaskRecord(mask, r))
    case StrSlice(None) => Zero(v)
    case StrSlice(Some(xs)) =>
      StrSlice(Some(seq(|xs|, j requires 0 <= j < |xs| => MaskString(mask, tag, xs[j]))))
    case RecSlice(NilRecords) => Zero(v)
    case RecSlice(Records(rs)) =>
      RecSlice(Records(seq(|rs|, j requires 0 <= j < |rs| => MaskRecord(mask, rs[j]))))
    case OtherSlice(_) => Zero(v)
    case _ => v
  }

  /** A non-nil slice of any element kind other than string or struct is
      left nil in the clone, whatever the glyph and the tag. */
  lemma OtherSliceDropped(mask: string, tag: string, xs: seq<Value>)
    ensures MaskValue(mask, tag, OtherSlice(Some(xs))) == OtherSlice(None)
  {
  }

  /** `maskStruct(s)` for an argument that is nil or a struct: an error for
      nil, the clone otherwise. */
  function MaskStructOf(mask: string, s: Option<Record>): Result<Record, MaskError>
  {
    match s
    case None => Failure(NilValue)
    case Some(r) => Success(MaskRecord(mask, r))
  }

  /** Nothing in the value of a field tagged `tag` would be changed by the
      clone: no string or string slice under a masking tag at any depth, and
      no non-nil slice of another element kind (those are not carried into
      the clone). */
  predicate NothingToMask(tag: string, v: Value)
    decreases v
  {
    match v
    case Str(_) => !ShouldMask(tag)
    case StrSlice(Some(_)) => !ShouldMask(tag)
    case Rec(r) => NothingToMaskIn(r)
    case RecSlice(Records(rs)) => forall j :: 0 <= j < |rs| ==> NothingToMaskIn(rs[j])
    case OtherSlice(Some(_)) => false
    case _ => true
  }

  predicate NothingToMaskIn(r: Record)
    decreases r
  {
    forall i :: 0 <= i < |r.fields| ==> NothingToMask(r.fields[i].tag, r.fields[i].v)
  }

  /** A value with nothing to mask is copied into the clone unchanged, at any
      depth. */
  lemma {:induction false} UntaggedValueCopied(mask: string, tag: string, v: Value)
    requires NothingToMask(tag, v)
    ensures MaskValue(mask, tag, v) == v
    decreases v
  {
    match v
    case Rec(r) => UntaggedRecordCopied(mask, r);
    case StrSlice(Some(xs)) =>
      assert MaskValue(mask, tag, v).strs.value == xs;
    case RecSlice(Records(rs)) =>
      forall j | 0 <= j < |rs| ensures MaskRecord(mask, rs[j]) == rs[j] {
        UntaggedRecordCopied(mask, rs[j]);
      }
      assert MaskValue(mask, tag, v).recs.items == rs;
    case _ =>
  }

  /** A struct with nothing to mask is cloned into an equal struct. */
  lemma {:induction false} UntaggedRecordCopied(mask: string, r: Record)
    requires NothingToMaskIn(r)
    ensures MaskRecord(mask, r) == r
    decreases r
  {
    forall i | 0 <= i < |r.fields| ensures MaskField(mask, r.fields[i]) == r.fields[i] {
      UntaggedValueCopied(mask, r.fields[i].tag, r.fields[i].v);
    }
    assert MaskRecord(mask, r).fields == r.fields;
  }

  /** With a one-byte glyph a masked string is masked again into itself. */
  lemma MaskStringIdempotent(c: char, tag: string, s: string)
    ensures MaskString([c], tag, MaskString([c], tag, s)) == MaskString([c], tag, s)
  {
    if ShouldMask(tag) {
      SanitizeIdempotent(s, c, TagLevel(tag));
    }
  }

  /** What a masked string still shows, with a one-byte glyph `c`: when the
      tag's second token is "full", nothing (every byte is `c`); otherwise
      its visible prefix, with every later byte replaced by `c`. */
  lemma MaskStringHides(c: char, tag: string, s: string)
    requires ShouldMask(tag)
    ensures |MaskString([c], tag, s)| == |s|
    ensures forall i :: 0 <= i < |s| && (SecondTokenIsFull(tag) || i >= Visible(|s|)) ==>
              MaskString([c], tag, s)[i] == c
    ensures forall i :: 0 <= i < |s| && !SecondTokenIsFull(tag) && i < Visible(|s|) ==>
              MaskString([c], tag, s)[i] == s[i]
  {
    TagLevelFull(tag);
    SanitizeGlyph(s, c, TagLevel(tag));
  }

  /** With a one-byte glyph, cloning a clone gives the same clone. */
  lemma {:induction false} MaskValueIdempotent(c: char, tag: string, v: Value)
    ensures MaskValue([c], tag, MaskValue([c], tag, v)) == MaskValue([c], tag, v)
    decreases v
  {
    match v
    case Str(s) => MaskStringIdempotent(c, tag, s);
    case Rec(r) => MaskRecordIdempotent(c, r);
    case StrSlice(Some(xs)) =>
      var once := MaskValue([c], tag, v).strs.value;
      forall j | 0 <= j < |xs| ensures MaskString([c], tag, once[j]) == once[j] {
        MaskStringIdempotent(c, tag, xs[j]);
      }
      assert MaskValue([c], tag, MaskValue([c], tag, v)).strs.value == once;
    case RecSlice(Records(rs)) =>
      var once := MaskValue([c], tag, v).recs.items;
      forall j | 0 <= j < |rs| ensures MaskRecord([c], once[j]) == once[j] {
        MaskRecordIdempotent(c, rs[j]);
      }
      assert MaskValue([c], tag, MaskValue([c], tag, v)).recs.items == once;
    case _ =>
  }

  lemma {:induction false} MaskRecordIdempotent(c: char, r: Record)
    ensures MaskRecord([c], MaskRecord([c], r)) == MaskRecord([c], r)
    decreases r
  {
    var once := MaskRecord([c], r);
    forall i | 0 <= i < |r.fields| ensures MaskField([c], once.fields[i]) == once.fields[i] {
      assert once.fields[i] == MaskField([c], r.fields[i]);
      MaskValueIdempotent(c, r.fields[i].tag, r.fields[i].v);
    }
    assert MaskRecord([c], once).fields == once.fields;
  }

  /** A string reduced to its length. */
  function Blank(s: string): (b: string)
    ensures |b| == |s|
  {
    seq(|s|, k => '?')
  }

  /** What a value keeps through cloning with a one-byte glyph: field names
      and tags, kinds, the lengths of strings and of string and struct
      slices, which of those slices are nil, and every value of another kind.
      String contents are reduced to their lengths, and slices of another
      element kind to nil. */
  function Skeleton(v: Value): Value
    decreases v
  {
    match v
    case Str(s) => Str(Blank(s))
    case Rec(r) => Rec(SkeletonOf(r))
    case StrSlice(Some(xs)) => StrSlice(Some(seq(|xs|, j requires 0 <= j < |xs| => Blank(xs[j]))))
    case RecSlice(Records(rs)) => RecSlice(Records(seq(|rs|, j requires 0 <= j < |rs| => SkeletonOf(rs[j]))))
    case OtherSlice(_) => OtherSlice(None)
    case _ => v
  }

  function SkeletonOf(r: Record): Record
    decreases r
  {
    Record(seq(|r.fields|, i requires 0 <= i < |r.fields| =>
      Field(r.fields[i].name, r.fields[i].tag, Skeleton(r.fields[i].v))))
  }

  /** With a one-byte glyph masking keeps the length of a string. */
  lemma MaskStringLength(c: char, tag: string, s: string)
    ensures |MaskString([c], tag, s)| == |s|
  {
    if ShouldMask(tag) {
      SanitizeGlyph(s, c, TagLevel(tag));
    }
  }

  /** With a one-byte glyph the clone has the skeleton of the input. */
  lemma {:induction false} MaskValueSkeleton(c: char, tag: string, v: Value)
    ensures Skeleton(MaskValue([c], tag, v)) == Skeleton(v)
    decreases v
  {
    match v
    case Str(s) => MaskStringLength(c, tag, s);
    case Rec(r) => MaskRecordSkeleton(c, r);
    case StrSlice(Some(xs)) =>
      var once := MaskValue([c], tag, v).strs.value;
      forall j | 0 <= j < |xs| ensures Blank(once[j]) == Blank(xs[j]) {
        MaskStringLength(c, tag, xs[j]);
      }
      assert Skeleton(MaskValue([c], tag, v)).strs.value == Skeleton(v).strs.value;
    case RecSlice(Records(rs)) =>
      var once := MaskValue([c], tag, v).recs.items;
      forall j | 0 <= j < |rs| ensures SkeletonOf(once[j]) == SkeletonOf(rs[j]) {
        MaskRecordSkeleton(c, rs[j]);
      }
      assert Skeleton(MaskValue([c], tag, v)).recs.items == Skeleton(v).recs.items;
    case _ =>
  }

  lemma {:induction false} MaskRecordSkeleton(c: char, r: Record)
    ensures SkeletonOf(MaskRecord([c], r)) == SkeletonOf(r)
    decreases r
  {
    var once := MaskRecord([c], r);
    forall i | 0 <= i < |r.fields|
      ensures SkeletonOf(once).fields[i] == SkeletonOf(r).fields[i]
    {
      assert once.fields[i] == MaskField([c], r.fields[i]);
      MaskValueSkeleton(c, r.fields[i].tag, r.fields[i].v);
    }
    assert SkeletonOf(once).fields == SkeletonOf(r).fields;
  }

  /** What a value keeps through cloning whatever the glyph: field names and
      tags, kinds, the lengths of string and struct slices, which of those
      slices are nil, and every value of another kind. Strings are reduced
      to nothing, since a glyph longer than one byte changes their length,
      and slices of another element kind to nil. */
  function Shape(v: Value): Value
    decreases v
  {
    match v
    case Str(_) => Str("")
    case Rec(r) => Rec(ShapeOf(r))
    case StrSlice(Some(xs)) => StrSlice(Some(seq(|xs|, j => "")))
    case RecSlice(Records(rs)) => RecSlice(Records(seq(|rs|, j requires 0 <= j < |rs| => ShapeOf(rs[j]))))
    case OtherSlice(_) => OtherSlice(None)
    case _ => v
  }

  function ShapeOf(r: Record): Record
    decreases r
  {
    Record(seq(|r.fields|, i requires 0 <= i < |r.fields| =>
      Field(r.fields[i].name, r.fields[i].tag, Shape(r.fields[i].v))))
  }

  /** With any glyph the clone has the shape of the input. */
  lemma {:induction false} MaskValueShape(mask: string, tag: string, v: Value)
    ensures Shape(MaskValue(mask, tag, v)) == Shape(v)
    decreases v
  {
    match v
    case Rec(r) => MaskRecordShape(mask, r);
    case RecSlice(Records(rs)) =>
      var once := MaskValue(mask, tag, v).recs.items;
      forall j | 0 <= j < |rs| ensures ShapeOf(once[j]) == ShapeOf(rs[j]) {
        MaskRecordShape(mask, rs[j]);
      }
      assert Shape(MaskValue(mask, tag, v)).recs.items == Shape(v).recs.items;
    case _ =>
  }

  lemma {:induction false} MaskRecordShape(mask: string, r: Record)
    ensures ShapeOf(MaskRecord(mask, r)) == ShapeOf(r)
    decreases r
  {
    var once := MaskRecord(mask, r);
    forall i | 0 <= i < |r.fields|
      ensures ShapeOf(once).fields[i] == ShapeOf(r).fields[i]
    {
      assert once.fields[i] == MaskField(mask, r.fields[i]);
      MaskValueShape(mask, r.fields[i].tag, r.fields[i].v);
    }
    assert ShapeOf(once).fields == ShapeOf(r).fields;
  }
}
