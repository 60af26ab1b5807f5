/** The tests of `mask` as concrete facts about the model.

    Each literal is named once, as a constant, and every fact about it is
    proved from small pieces: a format as its parts, the placeholder count of
    a format as the sum over its parts, the walk over a format part by part
    with the text bytes each part takes, and a format argument as the join of
    its `'|'`-pieces. */
module MaskFixtures {
  import opened Bytes
  import opened Selector
  import opened Applier
  import opened UniversalMask

  // The formats of the tests and the parts they are cut into.

  const GROUP3: seq<byte> := "XXX-"
  const GROUP2: seq<byte> := "XX-"
  const RUN4: seq<byte> := "XXXX"
  const RUN3: seq<byte> := "XXX"
  const AREA: seq<byte> := "(XXX) "

  /** `"XXX-XX-XXXX"` */
  const SSN: seq<byte> := GROUP3 + (GROUP2 + RUN4)
  /** `"XX-XXXXXXX"` */
  const EIN: seq<byte> := GROUP2 + (RUN4 + RUN3)
  /** `"(XXX) XXX-XXXX"` */
  const PHONE: seq<byte> := AREA + (GROUP3 + RUN4)
  /** `"XXX-XXX-XXX-XXX-XXX"` */
  const CASCADE: seq<byte> := GROUP3 + (GROUP3 + (GROUP3 + (GROUP3 + RUN3)))

  lemma GroupCounts()
    ensures XCount(GROUP3) == 3 && XCount(GROUP2) == 2
  {
  }

  lemma RunCounts()
    ensures XCount(RUN4) == 4 && XCount(RUN3) == 3
  {
  }

  lemma AreaCount()
    ensures XCount(AREA) == 3
  {
  }

  lemma SsnCount()
    ensures XCount(SSN) == 9
  {
    GroupCounts();
    RunCounts();
    XCountAppend(GROUP3, GROUP2 + RUN4);
    XCountAppend(GROUP2, RUN4);
  }

  lemma EinCount()
    ensures XCount(EIN) == 9
  {
    GroupCounts();
    RunCounts();
    XCountAppend(GROUP2, RUN4 + RUN3);
    XCountAppend(RUN4, RUN3);
  }

  lemma PhoneCount()
    ensures XCount(PHONE) == 10
  {
    GroupCounts();
    RunCounts();
    AreaCount();
    XCountAppend(AREA, GROUP3 + RUN4);
    XCountAppend(GROUP3, RUN4);
  }

  lemma CascadeCount()
    ensures XCount(CASCADE) == 15
  {
    GroupCounts();
    RunCounts();
    XCountAppend(GROUP3, GROUP3 + (GROUP3 + (GROUP3 + RUN3)));
    XCountAppend(GROUP3, GROUP3 + (GROUP3 + RUN3));
    XCountAppend(GROUP3, GROUP3 + RUN3);
    XCountAppend(GROUP3, RUN3);
  }

  // The walks, part by part.

  const D123: seq<byte> := "123"
  const D45: seq<byte> := "45"
  const D6789: seq<byte> := "6789"
  /** `"123456789"` */
  const SSN_TEXT: seq<byte> := D123 + (D45 + D6789)
  /** `"123-45-6789"` */
  const SSN_OUT: seq<byte> := "123-" + ("45-" + "6789")

  lemma FillGroup123()
    ensures Fill(GROUP3, D123) == "123-"
  {
  }

  lemma FillGroup45()
    ensures Fill(GROUP2, D45) == "45-"
  {
  }

  lemma FillRun6789()
    ensures Fill(RUN4, D6789) == "6789"
  {
  }

  lemma SsnFill()
    ensures Fill(SSN, SSN_TEXT) == SSN_OUT
  {
    GroupCounts();
    FillGroup123();
    FillGroup45();
    FillRun6789();
    FillParts(GROUP2, RUN4, D45, D6789);
    FillParts(GROUP3, GROUP2 + RUN4, D123, D45 + D6789);
  }

  const D456: seq<byte> := "456"
  const D7890: seq<byte> := "7890"
  /** `"1234567890"` */
  const PHONE_TEXT: seq<byte> := D123 + (D456 + D7890)
  /** `"(123) 456-7890"` */
  const PHONE_OUT: seq<byte> := "(123) " + ("456-" + "7890")

  lemma FillArea123()
    ensures Fill(AREA, D123) == "(123) "
  {
  }

  lemma FillGroup456()
    ensures Fill(GROUP3, D456) == "456-"
  {
  }

  lemma FillRun7890()
    ensures Fill(RUN4, D7890) == "7890"
  {
  }

  lemma PhoneFill()
    ensures Fill(PHONE, PHONE_TEXT) == PHONE_OUT
  {
    GroupCounts();
    AreaCount();
    FillArea123();
    FillGroup456();
    FillRun7890();
    FillParts(GROUP3, RUN4, D456, D7890);
    FillParts(AREA, GROUP3 + RUN4, D123, D456 + D7890);
  }

  const D789: seq<byte> := "789"
  const D012: seq<byte> := "012"
  const D345: seq<byte> := "345"
  /** `"123456789012345"` */
  const CASCADE_TEXT: seq<byte> := D123 + (D456 + (D789 + (D012 + D345)))
  /** `"123-456-789-012-345"` */
  const CASCADE_OUT: seq<byte> := "123-" + ("456-" + ("789-" + ("012-" + "345")))

  lemma FillGroup789()
    ensures Fill(GROUP3, D789) == "789-"
  {
  }

  lemma FillGroup012()
    ensures Fill(GROUP3, D012) == "012-"
  {
  }

  lemma FillRun345()
    ensures Fill(RUN3, D345) == "345"
  {
  }

  lemma CascadeFill()
    ensures Fill(CASCADE, CASCADE_TEXT) == CASCADE_OUT
  {
    GroupCounts();
    FillGroup123();
    FillGroup456();
    FillGroup789();
    FillGroup012();
    FillRun345();
    FillParts(GROUP3, RUN3, D012, D345);
    FillParts(GROUP3, GROUP3 + RUN3, D789, D012 + D345);
    FillParts(GROUP3, GROUP3 + (GROUP3 + RUN3), D456, D789 + (D012 + D345));
    FillParts(GROUP3, GROUP3 + (GROUP3 + (GROUP3 + RUN3)), D123, D456 + (D789 + (D012 + D345)));
  }

  // The selections.

  lemma SsnPlain()
    ensures SEPARATOR !in SSN
    ensures !IsWhitespace(SSN[0]) && !IsWhitespace(SSN[|SSN| - 1])
  {
  }

  lemma EinPlain()
    ensures SEPARATOR !in EIN
    ensures !IsWhitespace(EIN[0]) && !IsWhitespace(EIN[|EIN| - 1])
  {
  }

  lemma PhonePlain()
    ensures SEPARATOR !in PHONE
    ensures !IsWhitespace(PHONE[0]) && !IsWhitespace(PHONE[|PHONE| - 1])
  {
  }

  lemma CascadePlain()
    ensures SEPARATOR !in CASCADE
    ensures !IsWhitespace(CASCADE[0]) && !IsWhitespace(CASCADE[|CASCADE| - 1])
  {
  }

  /** A single pattern is selected whatever the text length. */
  lemma SsnSelect(textLen: nat)
    ensures Select(textLen, SSN) == SSN
  {
    SsnPlain();
    SelectSingle(textLen, SSN);
    TrimUnchanged(SSN);
  }

  lemma PhoneSelect(textLen: nat)
    ensures Select(textLen, PHONE) == PHONE
  {
    PhonePlain();
    SelectSingle(textLen, PHONE);
    TrimUnchanged(PHONE);
  }

  const SPACE: seq<byte> := " "

  /** Two pieces glued with a separator. */
  lemma JoinTwo(a: seq<byte>, b: seq<byte>)
    ensures Join([a, b]) == a + [SEPARATOR] + b
  {
    assert [a, b][1..] == [b];
  }

  /** Three pieces glued with separators. */
  lemma JoinThree(a: seq<byte>, b: seq<byte>, c: seq<byte>)
    ensures Join([a, b, c]) == a + [SEPARATOR] + (b + [SEPARATOR] + c)
  {
    assert [a, b, c][1..] == [b, c];
    JoinTwo(b, c);
  }

  /** A pattern with a space on either side trims to the pattern when it
      neither starts nor ends with whitespace. */
  lemma Padded(pre: seq<byte>, s: seq<byte>, post: seq<byte>)
    requires pre == [] || pre == SPACE
    requires post == [] || post == SPACE
    requires s != [] && !IsWhitespace(s[0]) && !IsWhitespace(s[|s| - 1])
    requires SEPARATOR !in s
    ensures Trim(pre + s + post) == s
    ensures SEPARATOR !in pre + s + post
  {
    TrimPadding(pre, s, post);
  }

  /** `" | "` */
  const BAR: seq<byte> := SPACE + [SEPARATOR] + SPACE
  /** `"XXX-XX-XXXX | XX-XXXXXXX"` */
  const TWO_FORMATS: seq<byte> := SSN + BAR + EIN
  /** `"XXX-XX-XXXX | XX-XXXXXXX | XXX-XXX-XXX-XXX-XXX"` */
  const THREE_FORMATS: seq<byte> := SSN + BAR + EIN + BAR + CASCADE

  lemma TwoFormatsPieces()
    ensures TWO_FORMATS == (SSN + SPACE) + [SEPARATOR] + (SPACE + EIN)
  {
  }

  lemma ThreeFormatsPieces()
    ensures THREE_FORMATS ==
      (SSN + SPACE) + [SEPARATOR] + ((SPACE + EIN + SPACE) + [SEPARATOR] + (SPACE + CASCADE))
  {
  }

  lemma TwoFormatsCandidates()
    ensures Candidates(TWO_FORMATS) == [SSN, EIN]
  {
    var pieces := [SSN + SPACE, SPACE + EIN];
    SsnPlain();
    EinPlain();
    Padded([], SSN, SPACE);
    Padded(SPACE, EIN, []);
    assert [] + SSN + SPACE == SSN + SPACE && SPACE + EIN + [] == SPACE + EIN;
    TwoFormatsPieces();
    JoinTwo(SSN + SPACE, SPACE + EIN);
    CandidatesOfJoin(pieces);
  }

  lemma ThreeFormatsCandidates()
    ensures Candidates(THREE_FORMATS) == [SSN, EIN, CASCADE]
  {
    var pieces := [SSN + SPACE, SPACE + EIN + SPACE, SPACE + CASCADE];
    SsnPlain();
    EinPlain();
    CascadePlain();
    Padded([], SSN, SPACE);
    Padded(SPACE, EIN, SPACE);
    Padded(SPACE, CASCADE, []);
    assert [] + SSN + SPACE == SSN + SPACE && SPACE + CASCADE + [] == SPACE + CASCADE;
    ThreeFormatsPieces();
    JoinThree(SSN + SPACE, SPACE + EIN + SPACE, SPACE + CASCADE);
    CandidatesOfJoin(pieces);
  }

  /** Twelve bytes against two nine-placeholder formats: the second does not
      hold strictly more, so the first is kept. */
  lemma TwoFormatsSelect()
    ensures Select(12, TWO_FORMATS) == SSN
  {
    TwoFormatsCandidates();
    SsnCount();
    EinCount();
    assert Chosen(12, [SSN, EIN], 0);
    ChosenIsChoice(12, [SSN, EIN], 0);
  }

  /** Fifteen bytes: the first format is taken, kept over the tie with the
      second, and replaced by the fifteen-placeholder third. */
  lemma ThreeFormatsSelect()
    ensures Select(15, THREE_FORMATS) == CASCADE
  {
    ThreeFormatsCandidates();
    SsnCount();
    EinCount();
    CascadeCount();
    assert Chosen(15, [SSN, EIN, CASCADE], 2);
    ChosenIsChoice(15, [SSN, EIN, CASCADE], 2);
  }

  // The tests.

  /** `mask("123456789", "XXX-XX-XXXX") == "123-45-6789"`, with no warning. */
  lemma SsnFormat()
    ensures Masked(SSN_TEXT, SSN) == SSN_OUT
    ensures !Warns(SSN_TEXT, SSN)
  {
    SsnSelect(|SSN_TEXT|);
    SsnFill();
    SsnCount();
  }

  /** `mask("1234567890", "(XXX) XXX-XXXX") == "(123) 456-7890"`, with no
      warning. */
  lemma PhoneFormat()
    ensures Masked(PHONE_TEXT, PHONE) == PHONE_OUT
    ensures !Warns(PHONE_TEXT, PHONE)
  {
    PhoneSelect(|PHONE_TEXT|);
    PhoneFill();
    PhoneCount();
  }

  /** `"123456789012"` */
  const TWELVE_TEXT: seq<byte> := SSN_TEXT + D012

  /** `mask("123456789012", "XXX-XX-XXXX | XX-XXXXXXX")` as the code computes
      it: the first format filled with the first nine bytes, `"123-45-6789"`,
      with the warning raised; not the `"12-3456789"` the test expects. */
  lemma MultipleFormats()
    ensures Masked(TWELVE_TEXT, TWO_FORMATS) == SSN_OUT
    ensures Masked(TWELVE_TEXT, TWO_FORMATS) != "12-3456789"
    ensures Warns(TWELVE_TEXT, TWO_FORMATS)
  {
    TwoFormatsSelect();
    SsnCount();
    SsnFill();
    FillExtraText(SSN, SSN_TEXT, D012);
    assert SSN_OUT[0] == '1' && "12-3456789"[2] == '-' && SSN_OUT[2] == '3';
  }

  /** `mask("123456789012345", "XXX-XX-XXXX | XX-XXXXXXX |
      XXX-XXX-XXX-XXX-XXX") == "123-456-789-012-345"`, with no warning. */
  lemma LongFormat()
    ensures Masked(CASCADE_TEXT, THREE_FORMATS) == CASCADE_OUT
    ensures !Warns(CASCADE_TEXT, THREE_FORMATS)
  {
    ThreeFormatsSelect();
    CascadeCount();
    CascadeFill();
  }

  /** `mask("", "XXX-XX-XXXX") == ""`, with no warning. */
  lemma EmptyInput()
    ensures Masked([], SSN) == []
    ensures !Warns([], SSN)
  {
  }

  /** `mask("123", "XXX-XX-XXXX")` as the code computes it: the literal
      `'-'` after the third placeholder is copied before the walk meets the
      fourth placeholder and stops, so the result is `"123-"`, with no
      warning; the test expects `"123"`, which is what `FillUntilExhausted`
      gives. */
  lemma PartialFormat()
    ensures Masked(D123, SSN) == "123-"
    ensures !Warns(D123, SSN)
    ensures FillUntilExhausted(SSN, D123) == D123
  {
    SsnSelect(|D123|);
    SsnCount();
    GroupCounts();
    FillGroup123();
    FillParts(GROUP3, GROUP2 + RUN4, D123, []);
    assert D123 + [] == D123;
    assert (GROUP2 + RUN4)[0] == PLACEHOLDER;
    FillUntilExhaustedSpec(SSN, D123);
    var out := FillUntilExhausted(SSN, D123);
    assert |out| == 3 by {
      assert |out| <= 4;
      assert |out| >= 3;
      assert SSN[3] != PLACEHOLDER;
    }
    assert "123-"[..3] == D123;
  }

  const PAIR: seq<byte> := "XX"
  const D12: seq<byte> := "12"
  /** `" | XX"` */
  const LEADING_EMPTY: seq<byte> := BAR + PAIR

  lemma LeadingEmptyCandidates()
    ensures Candidates(LEADING_EMPTY) == [[], PAIR]
  {
    assert LEADING_EMPTY == SPACE + [SEPARATOR] + (SPACE + PAIR);
    assert Trim(SPACE) == [] && SEPARATOR !in SPACE;
    Padded(SPACE, PAIR, []);
    assert SPACE + PAIR + [] == SPACE + PAIR;
    JoinTwo(SPACE, SPACE + PAIR);
    CandidatesOfJoin([SPACE, SPACE + PAIR]);
  }

  /** A leading pattern that trims to nothing does not lock the choice, since
      the best is still empty when the next pattern comes: `mask("12",
      " | XX") == "12"`. */
  lemma LeadingEmptyPattern()
    ensures Masked(D12, LEADING_EMPTY) == D12
    ensures !Warns(D12, LEADING_EMPTY)
  {
    LeadingEmptyCandidates();
    assert XCount(PAIR) == 2;
    FirstFitLocks(2, [[], PAIR], 1);
    assert Fill(PAIR, D12) == D12;
  }

  // The constants spell the strings of the tests.

  lemma SsnLiterals()
    ensures SSN == "XXX-XX-XXXX" && SSN_TEXT == "123456789" && SSN_OUT == "123-45-6789"
  {
  }

  lemma PhoneLiterals()
    ensures PHONE == "(XXX) XXX-XXXX" && PHONE_TEXT == "1234567890" && PHONE_OUT == "(123) 456-7890"
  {
  }

  lemma TwoFormatsLiterals()
    ensures TWO_FORMATS == "XXX-XX-XXXX | XX-XXXXXXX" && TWELVE_TEXT == "123456789012"
  {
  }

  lemma ThreeFormatsLiterals()
    ensures THREE_FORMATS == "XXX-XX-XXXX" + " | " + "XX-XXXXXXX" + " | " + "XXX-XXX-XXX-XXX-XXX"
  {
  }

  lemma CascadeLiterals()
    ensures CASCADE_TEXT == "123456789012345" && CASCADE_OUT == "123-456-789-012-345"
  {
  }

  lemma LeadingEmptyLiterals()
    ensures LEADING_EMPTY == " | XX" && D12 == "12"
  {
  }
}
