/**
 The three store tests replayed on the model: a document of three records
 (active, disabled, commented), the adds and removes the tests attempt, and
 what `parse()` must report afterwards. Each test's validator is left open
 except for the verdicts the test relies on.
 */
module YamlTests {
  import opened Results
  import opened Blacklists
  import Text

  /** The record form `{key: v}` of a candidate. */
  function Rec(v: string): Candidate {
    Record(Item(v, false, None))
  }

  /** The three-record document every store test starts from. */
  function Document(active: string, disabled: string, commented: string): seq<Item> {
    [Item(active, false, None), Item(disabled, true, None), Item(commented, false, Some("comment"))]
  }

  /** The CIDR document of `test_yaml_blacklist`. */
  function CidrDocument(): seq<Item> {
    Document("1.2.3.4", "2.3.4.5", "3.4.5.6")
  }

  /** `test_yaml_blacklist`, refusals: malformed values, a value held by an
      active record, one held by a disabled record, and the removal of an
      absent value all fail. */
  lemma CidrListRefusals(valid: string -> bool)
    requires !valid("1.3.34") && !valid("1.3.4")
    ensures Add(Parser(Cidr, valid), CidrDocument(), Bare("1.3.34")).Err?
    ensures Add(Parser(Cidr, valid), CidrDocument(), Rec("1.3.4")).Err?
    ensures Add(Parser(Cidr, valid), CidrDocument(), Rec("1.2.3.4")).Err?
    ensures Add(Parser(Cidr, valid), CidrDocument(), Rec("2.3.4.5")).Err?
    ensures Remove(CidrDocument(), Rec("34.45.56.67")).Err?
  {
    var s0 := CidrDocument();
    assert s0[0].value == "1.2.3.4" && s0[1].value == "2.3.4.5";
    assert Present(s0, "1.2.3.4") && Present(s0, "2.3.4.5");
    assert !Present(s0, "34.45.56.67") by {
      assert "34.45.56.67"[0] != s0[0].value[0];
      assert "34.45.56.67"[0] != s0[1].value[0];
      assert "34.45.56.67"[1] != s0[2].value[1];
    }
  }

  /** `test_yaml_blacklist`, changes: adding `1.3.4.5` succeeds; `parse()`
      then reports the active values but not the disabled one, and loses
      `3.4.5.6` once it is removed. */
  lemma CidrListScenario(valid: string -> bool)
    requires valid("1.3.4.5")
    ensures Add(Parser(Cidr, valid), CidrDocument(), Rec("1.3.4.5")).Ok?
    ensures var s1 := Add(Parser(Cidr, valid), CidrDocument(), Rec("1.3.4.5")).value;
            && "1.2.3.4" in Parse(s1)
            && "2.3.4.5" !in Parse(s1)
            && "3.4.5.6" in Parse(s1)
            && Remove(s1, Rec("3.4.5.6")).Ok?
            && "3.4.5.6" !in Parse(Remove(s1, Rec("3.4.5.6")).value)
  {
    var s0 := CidrDocument();
    var v := "1.3.4.5";
    assert !KeyTaken(Cidr, s0, v) by {
      assert v[2] != s0[0].value[2];
      assert v[0] != s0[1].value[0];
      assert v[0] != s0[2].value[0];
    }
    var s1 := s0 + [Item(v, false, None)];
    assert Add(Parser(Cidr, valid), s0, Rec(v)) == Ok(s1);
    assert s1[0].value == "1.2.3.4" && s1[2].value == "3.4.5.6";
    assert Active(s1, "1.2.3.4") && Active(s1, "3.4.5.6");
    assert !Active(s1, "2.3.4.5") by {
      assert "2.3.4.5"[0] != s1[0].value[0];
      assert "2.3.4.5"[0] != s1[2].value[0];
      assert "2.3.4.5"[0] != s1[3].value[0];
    }
    assert Present(s1, "3.4.5.6");
  }

  /** The ASN document of `test_yaml_asn`. */
  function AsnDocument(): seq<Item> {
    Document("123", "234", "345")
  }

  /** `test_yaml_asn`, refusals: a value held by an active record (bare or as
      a record), a malformed value, one held by a disabled record, and the
      removal of an absent value all fail. */
  lemma AsnListRefusals(valid: string -> bool)
    requires !valid("invalid")
    ensures Add(Parser(Asn, valid), AsnDocument(), Bare("123")).Err?
    ensures Add(Parser(Asn, valid), AsnDocument(), Rec("invalid")).Err?
    ensures Add(Parser(Asn, valid), AsnDocument(), Rec("123")).Err?
    ensures Add(Parser(Asn, valid), AsnDocument(), Rec("234")).Err?
    ensures Remove(AsnDocument(), Rec("9897")).Err?
  {
    var s0 := AsnDocument();
    assert s0[0].value == "123" && s0[1].value == "234";
    assert Present(s0, "123") && Present(s0, "234");
    assert !Present(s0, "9897") by {
      assert |"9897"| != |s0[0].value|;
      assert |"9897"| != |s0[1].value|;
      assert |"9897"| != |s0[2].value|;
    }
  }

  /** `test_yaml_asn`, reading and removing: `parse()` reports the active
      values but not the disabled one, and loses `345` once it is removed. */
  lemma AsnListScenario()
    ensures "123" in Parse(AsnDocument())
    ensures "234" !in Parse(AsnDocument())
    ensures "345" in Parse(AsnDocument())
    ensures Remove(AsnDocument(), Rec("345")).Ok?
    ensures "345" !in Parse(Remove(AsnDocument(), Rec("345")).value)
  {
    var s0 := AsnDocument();
    assert s0[0].value == "123" && s0[2].value == "345";
    assert Active(s0, "123") && Active(s0, "345");
    assert !Active(s0, "234") by {
      assert "234"[0] != s0[0].value[0];
      assert "234"[0] != s0[2].value[0];
    }
    assert Present(s0, "345");
  }

  /** The nameserver document of `test_yaml_nses`. */
  function NsDocument(): seq<Item> {
    Document("example.com.", "example.net.", "example.org.")
  }

  /** Upper-casing a listed nameserver gives a value with the same key. */
  lemma UpperCaseNameHasListedKey()
    ensures Key(Ns, "EXAMPLE.COM.") == "example.com."
  {
    var upper, lower := "EXAMPLE.COM.", "example.com.";
    assert forall i :: 0 <= i < |upper| ==> Text.LowerChar(upper[i]) == lower[i];
  }

  /** `test_yaml_nses`, reading: `parse()` tells letter case apart and leaves
      out the disabled name. */
  lemma NsListParse()
    ensures "example.com." in Parse(NsDocument())
    ensures "EXAMPLE.COM." !in Parse(NsDocument())
    ensures "example.net." !in Parse(NsDocument())
    ensures "example.org." in Parse(NsDocument())
  {
    var s0 := NsDocument();
    assert s0[0].value == "example.com." && s0[2].value == "example.org.";
    assert !Active(s0, "EXAMPLE.COM.") by {
      assert "EXAMPLE.COM."[0] != s0[0].value[0];
      assert "EXAMPLE.COM."[0] != s0[2].value[0];
    }
  }

  /** `test_yaml_nses`, writing: a listed name cannot be added again in either
      letter case, and a removed name leaves `parse()`. */
  lemma NsListScenario(valid: string -> bool)
    ensures Add(Parser(Ns, valid), NsDocument(), Rec("example.com.")).Err?
    ensures Add(Parser(Ns, valid), NsDocument(), Rec("EXAMPLE.COM.")).Err?
    ensures valid("EXAMPLE.COM.") ==>
              Add(Parser(Ns, valid), NsDocument(), Rec("EXAMPLE.COM.")) == Err(Duplicate("EXAMPLE.COM."))
    ensures Remove(NsDocument(), Rec("example.org.")).Ok?
    ensures "example.org." !in Parse(Remove(NsDocument(), Rec("example.org.")).value)
  {
    var s0 := NsDocument();
    assert s0[0].value == "example.com." && s0[2].value == "example.org.";
    UpperCaseNameHasListedKey();
    assert Key(Ns, "EXAMPLE.COM.") == Key(Ns, s0[0].value) by {
      assert s0[0].value == Text.AsciiLower(s0[0].value);
    }
    assert KeyTaken(Ns, s0, "EXAMPLE.COM.");
  }
}
