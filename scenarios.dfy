/** The scenarios of masker/masker_test.go, stated over the model. */
module Scenarios {
  import opened Wrappers
  import opened GoStrings
  import opened Policy
  import opened Redact
  import opened Masker

  /** `Address{Number, Street}`; only `Street` carries `sensitive:"true"`. */
  function Address(number: int, street: string): Record
  {
    Record([Field("Number", "", Scalar(number)), Field("Street", "true", Str(street))])
  }

  /** The `TestStruct` value of the masking test. The float64 amount 123.34
      is an opaque scalar (here 12334): it is only ever copied. */
  function TestStruct(): Record
  {
    Record([
      Field("ID", "true", Str("nuih")),
      Field("Username", "", Str("test")),
      Field("CardNumber", "true", Str("4312123453459909")),
      Field("Password", "true,full", Str("abc1234")),
      Field("Amount", "", Scalar(12334)),
      Field("Address", "", Rec(Address(123, "Something"))),
      Field("IPs", "true", StrSlice(Some(["122345", "123454"]))),
      Field("ChildAddresses", "", RecSlice(Records([Address(222, "child1"), Address(111, "child2")])))
    ])
  }

  /** The value the test expects back (behind a pointer). */
  function Expected(): Record
  {
    Record([
      Field("ID", "true", Str("n***")),
      Field("Username", "", Str("test")),
      Field("CardNumber", "true", Str("4312************")),
      Field("Password", "true,full", Str("*******")),
      Field("Amount", "", Scalar(12334)),
      Field("Address", "", Rec(Address(123, "So*******"))),
      Field("IPs", "true", StrSlice(Some(["12****", "12****"]))),
      Field("ChildAddresses", "", RecSlice(Records([Address(222, "ch****"), Address(111, "ch****")])))
    ])
  }

  /** A string under `sensitive:"true"` is partially masked. */
  lemma PartialTagged(s: string, out: string)
    requires Sanitize(s, "*", PARTIAL_MASK) == out
    ensures MaskString("*", "true", s) == out
  {
    SplitNoSeparator("true", ',');
  }

  /** A string under `sensitive:"true,full"` is fully masked. */
  lemma FullTagged(s: string, out: string)
    requires Sanitize(s, "*", FULL_MASK) == out
    ensures MaskString("*", "true,full", s) == out
  {
    FullTagExamples();
  }

  lemma AddressMasked(number: int, street: string, masked: string)
    requires Sanitize(street, "*", PARTIAL_MASK) == masked
    ensures MaskRecord("*", Address(number, street)) == Address(number, masked)
  {
    var a := Address(number, street);
    var c := MaskRecord("*", a);
    assert c.fields[0] == a.fields[0] by {
      assert c.fields[0] == MaskField("*", a.fields[0]);
      assert MaskValue("*", "", Scalar(number)) == Scalar(number);
    }
    assert c.fields[1] == Field("Street", "true", Str(masked)) by {
      assert c.fields[1] == MaskField("*", a.fields[1]);
      PartialTagged(street, masked);
    }
    assert c.fields == [a.fields[0], Field("Street", "true", Str(masked))];
  }

  /** The elements of the `IPs` field. */
  lemma IpStringsMasked()
    ensures MaskString("*", "true", "122345") == "12****"
    ensures MaskString("*", "true", "123454") == "12****"
  {
    MoreExamples();
    PartialTagged("122345", "12****");
    assert Sanitize("123454", "*", PARTIAL_MASK) == "12****" by {
      SanitizeGlyph("123454", '*', PARTIAL_MASK);
    }
    PartialTagged("123454", "12****");
  }

  /** The `IPs` field: each address masked on its own. */
  lemma IpsMasked()
    ensures MaskValue("*", "true", StrSlice(Some(["122345", "123454"]))) == StrSlice(Some(["12****", "12****"]))
  {
    IpStringsMasked();
    var xs := ["122345", "123454"];
    var ips := MaskValue("*", "true", StrSlice(Some(xs))).strs.value;
    assert ips[0] == MaskString("*", "true", xs[0]);
    assert ips[1] == MaskString("*", "true", xs[1]);
    assert ips == [ips[0], ips[1]];
  }

  /** The `ChildAddresses` field: each element cloned, in order. */
  lemma ChildrenMasked()
    ensures MaskValue("*", "", RecSlice(Records([Address(222, "child1"), Address(111, "child2")])))
         == RecSlice(Records([Address(222, "ch****"), Address(111, "ch****")]))
  {
    MoreExamples();
    assert Sanitize("child2", "*", PARTIAL_MASK) == "ch****" by {
      SanitizeGlyph("child2", '*', PARTIAL_MASK);
    }
    AddressMasked(222, "child1", "ch****");
    AddressMasked(111, "child2", "ch****");
    var kids := MaskValue("*", "", RecSlice(Records([Address(222, "child1"), Address(111, "child2")])));
    assert kids.recs.items == [Address(222, "ch****"), Address(111, "ch****")];
  }

  /** `ID`, partially masked. */
  lemma IdMasked()
    ensures MaskField("*", TestStruct().fields[0]) == Expected().fields[0]
  {
    PartialExamples();
    PartialTagged("nuih", "n***");
  }

  /** `CardNumber`, partially masked. */
  lemma CardNumberMasked()
    ensures MaskField("*", TestStruct().fields[2]) == Expected().fields[2]
  {
    MoreExamples();
    PartialTagged("4312123453459909", "4312************");
  }

  /** `Password`, fully masked. */
  lemma PasswordMasked()
    ensures MaskField("*", TestStruct().fields[3]) == Expected().fields[3]
  {
    MoreExamples();
    FullTagged("abc1234", "*******");
  }

  /** `Username` and `Amount` carry no tag and are copied. */
  lemma UntaggedFieldsCopied()
    ensures MaskField("*", TestStruct().fields[1]) == Expected().fields[1]
    ensures MaskField("*", TestStruct().fields[4]) == Expected().fields[4]
  {
  }

  /** The first five fields of `TestStruct`: strings and the amount. */
  lemma LeadingFieldsMasked()
    ensures forall k :: 0 <= k < 5 ==> MaskField("*", TestStruct().fields[k]) == Expected().fields[k]
  {
    IdMasked();
    UntaggedFieldsCopied();
    CardNumberMasked();
    PasswordMasked();
    forall k | 0 <= k < 5 ensures MaskField("*", TestStruct().fields[k]) == Expected().fields[k] {
      assert k == 0 || k == 1 || k == 2 || k == 3 || k == 4;
    }
  }

  /** The nested struct and the two slices of `TestStruct`. */
  lemma NestedFieldsMasked()
    ensures forall k :: 5 <= k < 8 ==> MaskField("*", TestStruct().fields[k]) == Expected().fields[k]
  {
    var t, e := TestStruct(), Expected();
    assert MaskField("*", t.fields[5]) == e.fields[5] by {
      PartialExamples();
      AddressMasked(123, "Something", "So*******");
    }
    assert MaskField("*", t.fields[6]) == e.fields[6] by {
      IpsMasked();
    }
    assert MaskField("*", t.fields[7]) == e.fields[7] by {
      ChildrenMasked();
    }
    forall k | 5 <= k < 8 ensures MaskField("*", t.fields[k]) == e.fields[k] {
      assert k == 5 || k == 6 || k == 7;
    }
  }

  /** Masking `TestStruct` with the default glyph gives the expected value. */
  lemma TestStructMasked()
    ensures MaskRecord(DEFAULT_MASK, TestStruct()) == Expected()
  {
    var t, e := TestStruct(), Expected();
    LeadingFieldsMasked();
    NestedFieldsMasked();
    var c := MaskRecord("*", t);
    assert |c.fields| == |e.fields|;
    forall i | 0 <= i < |c.fields| ensures c.fields[i] == e.fields[i] {
      assert c.fields[i] == MaskField("*", t.fields[i]);
    }
    assert c.fields == e.fields;
  }

  /** `TestMasker_MaskSensitiveData`: a new masker returns a pointer to the
      expected value and no error. */
  method MaskSensitiveDataScenario() returns (res: Result<Value, MaskError>)
    ensures res == Success(Ptr(Some(Rec(Expected()))))
  {
    var m := new Masker();
    res := m.MaskSensitiveData(Rec(TestStruct()));
    TestStructMasked();
  }

  /** `TestMasker_SetMask`: "abc123" is "ab****" with the default glyph and
      "ab####" once the glyph is "#". */
  method SetMaskScenario() returns (before: string, after: string)
    ensures before == "ab****" && after == "ab####"
  {
    var m := new Masker();
    before := m.Sanitize("abc123", PARTIAL_MASK);
    m.SetMask("#");
    after := m.Sanitize("abc123", PARTIAL_MASK);
    PartialExamples();
  }
}
