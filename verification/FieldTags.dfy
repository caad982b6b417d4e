/** Field tags: which fields have no wire data, which are union arms, and what number an arm's tag gives it. */
module FieldTags {
  import opened Wire
  import opened Codec
  import opened Scanner

  predicate Digit(c: char) {
    '0' <= c <= '9'
  }

  function DigitValue(c: char): (d: nat)
    requires Digit(c)
  {
    c as int - '0' as int
  }

  function Pow10(k: nat): nat {
    if k == 0 then 1 else 10 * Pow10(k - 1)
  }

  predicate Digits(s: string) {
    forall i :: 0 <= i < |s| ==> Digit(s[i])
  }

  /** Each digit times its power of ten, from the left. */
  function PlaceValue(s: string): nat
    requires Digits(s)
  {
    if s == "" then 0 else DigitValue(s[0]) * Pow10(|s| - 1) + PlaceValue(s[1..])
  }

  /** `s` is a decimal numeral for `n`: leading zeros are allowed, a sign or a space is not. */
  predicate Numeral(s: string, n: nat) {
    s != "" && Digits(s) && PlaceValue(s) == n
  }

  lemma {:induction false} LastPlace(s: string)
    requires s != "" && Digits(s)
    ensures Digits(s[..|s| - 1]) && Digit(s[|s| - 1])
    ensures PlaceValue(s) == 10 * PlaceValue(s[..|s| - 1]) + DigitValue(s[|s| - 1])
  {
    var last := |s| - 1;
    if last > 0 {
      LastPlace(s[1..]);
      assert s[1..][..last - 1] == s[..last][1..];
      TenTimes(DigitValue(s[0]), Pow10(last - 1));
    } else {
      assert s[1..] == "" && s[..0] == "";
    }
  }

  lemma TenTimes(d: nat, p: nat)
    ensures d * (10 * p) == 10 * (d * p)
  {
  }

  /** The scan from the right computes the place value, and refuses what is no numeral. */
  lemma {:induction false} DecimalExactly(s: string, n: nat)
    ensures Decimal(s) == n <==> Numeral(s, n)
    decreases |s|
  {
    if s != "" && Digit(s[|s| - 1]) {
      var init := s[..|s| - 1];
      if |s| == 1 {
        assert Digits(s) && s[1..] == "";
        assert PlaceValue(s) == DigitValue(s[0]) * Pow10(0) + PlaceValue("");
      } else {
        var high := Decimal(init);
        if high >= 0 {
          DecimalExactly(init, high);
          assert s == init + [s[|s| - 1]];
          assert Digits(s);
          LastPlace(s);
        } else if Digits(s) {
          LastPlace(s);
          DecimalExactly(init, PlaceValue(init));
        }
      }
    }
  }

  lemma CommaAt(tag: string, k: nat)
    requires k < |tag| && tag[k] == ',' && forall j :: 0 <= j < k ==> tag[j] != ','
    ensures Comma(tag) == k
  {
  }

  lemma CommaAfter(tag: string, k: nat, n: nat)
    requires k < |tag| && Numeral(tag[..k], n) && tag[k] == ','
    ensures Comma(tag) == k
  {
    forall j | 0 <= j < k
      ensures tag[j] != ','
    {
      assert Digit(tag[..k][j]);
    }
    CommaAt(tag, k);
  }

  /** An arm has the number `n` exactly when its tag is a numeral for it, from 1 to 255, and then `,union`. */
  lemma ArmTagExactly(tag: string, n: nat)
    requires ',' in tag && n > 0
    ensures Comma(tag) < |tag|
    ensures ArmTag(tag) == n <==>
      n <= 255 && exists k | 0 <= k < |tag| :: Numeral(tag[..k], n) && tag[k] == ',' && tag[k + 1..] == "union"
  {
    var i := Comma(tag);
    assert i < |tag|;
    TagParts(tag, n);
    hide Numeral, Decimal, ArmTag, Comma;
    if k :| 0 <= k < |tag| && Numeral(tag[..k], n) && tag[k] == ',' && tag[k + 1..] == "union" {
      CommaAfter(tag, k, n);
    }
  }

  lemma TagParts(tag: string, n: nat)
    requires Comma(tag) < |tag| && n > 0
    ensures var i := Comma(tag); ArmTag(tag) == n <==> n <= 255 && Numeral(tag[..i], n) && tag[i + 1..] == "union"
  {
    hide Numeral, Decimal, Comma;
    DecimalExactly(tag[..Comma(tag)], n);
  }

  /** Blank fields, unexported ones and those tagged `-` have no wire data; of the others, a comma makes an arm. */
  lemma FieldKinds(f: Field)
    ensures f.Skipped() <==> f.name == "_" || !f.exported || f.tag == "-"
    ensures f.Tagged() <==> f.name != "_" && f.exported && ',' in f.tag
    ensures f.Plain() <==> f.name != "_" && f.exported && f.tag != "-" && ',' !in f.tag
  {
    if f.tag == "-" {
      assert ',' !in f.tag;
    }
  }

  // ---------------------------------------------------------------- the errors

  lemma TwoArms(a: Field, b: Field, seen: set<nat>)
    ensures ScanArms([a, b], seen) ==
      if !a.Tagged() then ScanArms([b], seen)
      else if ScanArm(a, seen).Bad? then Bad(ScanArm(a, seen).error)
      else
        var arm := ScanArm(a, seen).val;
        var more := ScanArms([b], seen + {arm.tag});
        if more.Bad? then Bad(more.error) else Good([arm] + more.val)
    ensures HasPlain([a, b]) <==> a.Plain() || b.Plain()
  {
    hide ScanArm;
    assert [a, b][1..] == [b] && [a, b][0] == a && [a, b][1] == b;
  }

  lemma LastArm(b: Field, seen: set<nat>)
    ensures ScanArms([b], seen) ==
      if !b.Tagged() then Good([])
      else if ScanArm(b, seen).Bad? then Bad(ScanArm(b, seen).error)
      else Good([ScanArm(b, seen).val])
  {
    hide ScanArm;
    assert [b][1..] == [] && [b][0] == b && ScanArms([], seen) == Good([]);
    if b.Tagged() && ScanArm(b, seen).Good? {
      var arm := ScanArm(b, seen).val;
      assert ScanArms([], seen + {arm.tag}) == Good([]) && [arm] + [] == [arm];
    }
  }

  /**
   The error of a struct whose first field is meant as an arm: a tag that gives no number, an arm that is no pointer,
   a number used twice, and a field beside the arm that is none.
   */
  lemma UnionErrors(a: Field, b: Field)
    requires a.Tagged()
    ensures var r := Scan(TStruct([a, b]));
      && (ArmTag(a.tag) == 0 ==> r == Bad(InvalidTag))
      && (ArmTag(a.tag) > 0 && !a.typ.TPtr? ==> r == Bad(NotPointer))
      && (ArmTag(a.tag) > 0 && a.typ.TPtr? && Scan(a.typ.elem).Good? ==>
            && (b.Plain() ==> r == Bad(MixedFields))
            && (b.Tagged() && ArmTag(b.tag) == 0 ==> r == Bad(InvalidTag))
            && (b.Tagged() && b.typ.TPtr? && ArmTag(b.tag) == ArmTag(a.tag) ==> r == Bad(DuplicateTag)))
  {
    hide Scan, ArmTag, Comma;
    StructCases([a, b]);
    TwoArms(a, b, {});
    if ScanArm(a, {}).Good? {
      var seen := {} + {ScanArm(a, {}).val.tag};
      LastArm(b, seen);
      assert ArmTag(a.tag) in seen;
      assert b.Plain() ==> !b.Tagged();
    }
  }
}
