/**
  The rule grammar in characters: which words each production takes, with what blanks between them, and that
  nothing but such words is ever taken for a rule.
 */
module NfWords {
  import opened Numerals
  import opened Options
  import opened NfRule
  import opened NfGrammar

  // ----- characters -----

  predicate IsGap(gap: string) {
    forall i :: 0 <= i < |gap| ==> gap[i] == ' ' || gap[i] == '\t'
  }

  /** s goes on with something other than a blank, or ends. */
  predicate NoBlank(s: string) {
    s == [] || (s[0] != ' ' && s[0] != '\t')
  }

  predicate IsWord(name: string) {
    name != [] && forall i :: 0 <= i < |name| ==> 'a' <= name[i] <= 'z' || 'A' <= name[i] <= 'Z'
  }

  lemma {:induction false} GapSkipped(gap: string, s: string)
    requires IsGap(gap) && NoBlank(s)
    ensures SkipBlanks(gap + s) == s
  {
    if gap == [] {
      assert gap + s == s;
    } else {
      assert gap[0] == ' ' || gap[0] == '\t';
      assert forall i :: 0 <= i < |gap[1..]| ==> gap[1..][i] == gap[i + 1];
      GapSkipped(gap[1..], s);
      assert (gap + s)[1..] == gap[1..] + s;
    }
  }

  lemma GapThen<T>(v: T, gap: string, s: string)
    requires IsGap(gap) && NoBlank(s)
    ensures ThenBlanks(v, gap + s) == if gap == [] then Failed else Matched(v, s)
  {
    GapSkipped(gap, s);
    if gap != [] { assert gap[0] == ' ' || gap[0] == '\t'; }
    hide SkipBlanks;
  }

  /** A name of letters, of either case, is read whole, with the spaces and tabs behind it. */
  lemma NameRead(name: string, gap: string, s: string)
    requires IsWord(name) && IsGap(gap) && NoBlank(s)
    requires gap != [] || s == [] || !('a' <= s[0] <= 'z' || 'A' <= s[0] <= 'Z')
    ensures NameP(name + (gap + s)) == Matched(name, s)
  {
    assert Letters(name) by {
      forall c | c in name ensures IsLetter(c) {
        var i :| 0 <= i < |name| && name[i] == c;
      }
    }
    if gap != [] { assert gap[0] == ' ' || gap[0] == '\t'; }
    LetterPrefixOf(name, gap + s);
    GapSkipped(gap, s);
    hide LetterPrefix, SkipBlanks;
    assert (name + (gap + s))[|name|..] == gap + s;
  }

  /** Nothing else is a name. */
  lemma NameExactly(s: string)
    ensures NameP(s).Matched? <==> s != [] && ('a' <= s[0] <= 'z' || 'A' <= s[0] <= 'Z')
  {
  }

  // ----- keywords -----

  lemma Keyword(word: string, gap: string, s: string)
    requires IsGap(gap) && NoBlank(s)
    ensures word <= word + (gap + s) && (word + (gap + s))[|word|..] == gap + s
  {
  }

  lemma ProtocolsRead(gap: string, s: string)
    requires IsGap(gap) && gap != [] && NoBlank(s)
    ensures ProtocolP("tcp" + (gap + s)) == Matched(Tcp, s) && ProtocolP("udp" + (gap + s)) == Matched(Udp, s)
  {
    Keyword("tcp", gap, s);
    Keyword("udp", gap, s);
    GapThen(Tcp, gap, s);
    GapThen(Udp, gap, s);
    assert ("udp" + (gap + s))[0] == 'u';
    hide ThenBlanks;
  }

  lemma FieldsRead(gap: string, s: string)
    requires IsGap(gap) && gap != [] && NoBlank(s)
    ensures FieldP("saddr" + (gap + s)) == Matched(Saddr, s) && FieldP("daddr" + (gap + s)) == Matched(Daddr, s)
    ensures FieldP("dport" + (gap + s)) == Matched(Dport, s) && FieldP("prot" + (gap + s)) == Matched(Prot, s)
  {
    Keyword("saddr", gap, s);
    Keyword("daddr", gap, s);
    Keyword("dport", gap, s);
    Keyword("prot", gap, s);
    GapThen(Saddr, gap, s);
    GapThen(Daddr, gap, s);
    GapThen(Dport, gap, s);
    GapThen(Prot, gap, s);
    assert ("saddr" + (gap + s))[0] == 's' && ("daddr" + (gap + s))[1] == 'a' && ("dport" + (gap + s))[1] == 'p';
    assert ("daddr" + (gap + s))[0] == 'd' && ("dport" + (gap + s))[0] == 'd';
    hide ThenBlanks;
  }

  lemma VerdictsRead(s: string)
    ensures ActionP("drop" + s) == Matched(Drop, s) && ActionP("accept" + s) == Matched(Accept, s)
  {
    assert ("accept" + s)[0] == 'a' && ("drop" + s)[4..] == s && ("accept" + s)[6..] == s;
  }

  // ----- numbers -----

  /** The value of a hexadecimal digit, character by character. */
  function HexDigit(c: char): Option<nat> {
    if '0' <= c <= '9' then Some(c as nat - '0' as nat)
    else if 'a' <= c <= 'f' then Some(10 + c as nat - 'a' as nat)
    else if 'A' <= c <= 'F' then Some(10 + c as nat - 'A' as nat)
    else None
  }

  /** Of a hexadecimal number only the first digit counts; all of them are taken. */
  lemma HexRead(digits: string, gap: string, s: string)
    requires digits != [] && forall i :: 0 <= i < |digits| ==> HexDigit(digits[i]).Some?
    requires IsGap(gap) && gap != [] && NoBlank(s)
    ensures NumberP("0x" + (digits + (gap + s))) == Matched(Figure(HexDigit(digits[0]).value), s)
  {
    var t := "0x" + (digits + (gap + s));
    assert AllDigits(digits, 16) by {
      forall c | c in digits ensures IsDigit(c, 16) {
        var i :| 0 <= i < |digits| && digits[i] == c;
      }
    }
    assert gap[0] == ' ' || gap[0] == '\t';
    assert !IsDigit((gap + s)[0], 16);
    DigitPrefixOf(digits, 16, gap + s);
    assert t[2..] == digits + (gap + s) && t[2 + |digits|..] == gap + s;
    assert HexP(t) == Matched(HexDigit(digits[0]).value, gap + s);
    GapThen(Figure(HexDigit(digits[0]).value), gap, s);
    hide HexP, ThenBlanks;
  }

  // ----- nothing but words -----

  lemma {:induction false} BlanksTaken(s: string) returns (gap: string)
    ensures IsGap(gap) && s == gap + SkipBlanks(s) && NoBlank(SkipBlanks(s))
    ensures s != [] && (s[0] == ' ' || s[0] == '\t') ==> gap != []
  {
    if s != [] && IsBlank(s[0]) {
      var rest := BlanksTaken(s[1..]);
      gap := [s[0]] + rest;
      assert s == [s[0]] + s[1..];
    } else {
      gap := [];
    }
  }

  lemma GapTaken<T>(v: T, s: string) returns (gap: string)
    ensures ThenBlanks(v, s).Matched? ==>
      IsGap(gap) && gap != [] && s == gap + ThenBlanks(v, s).rest && NoBlank(ThenBlanks(v, s).rest)
  {
    gap := BlanksTaken(s);
    hide SkipBlanks;
  }

  /** A name stops at a blank, or at something that is no letter. */
  lemma NameTaken(s: string) returns (gap: string)
    ensures NameP(s).Matched? ==>
      var name, rest := NameP(s).value, NameP(s).rest;
      && IsWord(name) && IsGap(gap) && s == name + (gap + rest)
      && (gap != [] || rest == [] || !('a' <= rest[0] <= 'z' || 'A' <= rest[0] <= 'Z'))
  {
    var name := LetterPrefix(s);
    gap := BlanksTaken(s[|name|..]);
    hide SkipBlanks, LetterPrefix;
    if name != [] {
      forall i | 0 <= i < |name| ensures 'a' <= name[i] <= 'z' || 'A' <= name[i] <= 'Z' { assert name[i] in name; }
      assert s == name + s[|name|..];
    }
  }

  predicate SaysDecimal(w: string, n: nat) {
    w != [] && AllDigits(w, 10) && ValueOf(w, 10) == n
  }

  /** The text of a number: decimal, or hexadecimal with the value of its first digit. */
  predicate SaysNumber(w: string, n: nat) {
    || SaysDecimal(w, n)
    || (|w| > 2 && w[..2] == "0x" && AllDigits(w[2..], 16) && HexDigit(w[2]) == Some(n))
  }

  predicate NetText(w: string, octets: seq<nat>, prefix: nat, a: string, b: string, c: string, d: string, e: string) {
    && |octets| == 4 && w == Dotted(a, b, c, d, e)
    && SaysDecimal(a, octets[0]) && SaysDecimal(b, octets[1]) && SaysDecimal(c, octets[2]) && SaysDecimal(d, octets[3])
    && SaysDecimal(e, prefix) && |e| <= 2
  }

  ghost predicate SaysOperand(w: string, v: Operand) {
    match v
    case Figure(n) => SaysNumber(w, n)
    case Net(octets, prefix) => exists a, b, c, d, e :: NetText(w, octets, prefix, a, b, c, d, e)
  }

  lemma DecimalTaken(s: string) returns (w: string)
    ensures DecimalP(s).Matched? ==> SaysDecimal(w, DecimalP(s).value) && s == w + DecimalP(s).rest
  {
    w := DigitPrefix(s, 10);
    assert s == w + s[|w|..];
    hide DigitPrefix, ValueOf, AllDigits;
  }

  lemma NumberTaken(s: string) returns (w: string, gap: string)
    ensures NumberP(s).Matched? ==>
      && NumberP(s).value.Figure? && SaysNumber(w, NumberP(s).value.n)
      && IsGap(gap) && gap != [] && s == w + (gap + NumberP(s).rest)
  {
    w, gap := [], [];
    if HexP(s).Matched? {
      var digits := DigitPrefix(s[2..], 16);
      w := "0x" + digits;
      assert digits[0] in digits && w[2..] == digits && s == w + s[2 + |digits|..];
      gap := GapTaken(Figure(HexP(s).value), HexP(s).rest);
      hide DigitPrefix, AllDigits, ThenBlanks;
    } else {
      w := DecimalTaken(s);
      if DecimalP(s).Matched? { gap := GapTaken(Figure(DecimalP(s).value), DecimalP(s).rest); }
      hide DecimalP, SaysDecimal, ThenBlanks;
    }
  }

  lemma AfterTaken(c: char, s: string) returns (w: string)
    ensures AfterP(c, s).Matched? ==> SaysDecimal(w, AfterP(c, s).value) && s == [c] + (w + AfterP(c, s).rest)
  {
    w := [];
    if s != [] {
      w := DecimalTaken(s[1..]);
      assert s == [s[0]] + s[1..];
    }
    hide DecimalP, SaysDecimal;
  }

  lemma CidrTaken(s: string) returns (e: string)
    ensures CidrP(s).Matched? ==> SaysDecimal(e, CidrP(s).value) && |e| <= 2 && s == "/" + (e + CidrP(s).rest)
  {
    e := [];
    if CidrP(s).Matched? {
      var first := s[1..2];
      ValueOfSnoc([], s[1], 10);
      assert [] + [s[1]] == first;
      if |s| > 2 && IsDigit(s[2], 10) {
        ValueOfSnoc(first, s[2], 10);
        e := s[1..3];
        assert e == first + [s[2]];
      } else {
        e := first;
      }
    }
    hide ValueOf, AllDigits, DigitOf;
  }

  lemma OctetsTaken(s: string) returns (a: string, b: string, c: string, d: string)
    ensures OctetsP(s).Matched? ==>
      var octets, rest := OctetsP(s).value, OctetsP(s).rest;
      && |octets| == 4 && SaysDecimal(a, octets[0]) && SaysDecimal(b, octets[1]) && SaysDecimal(c, octets[2])
      && SaysDecimal(d, octets[3]) && s == a + ("." + (b + ("." + (c + ("." + (d + rest))))))
  {
    a, b, c, d := [], [], [], [];
    if OctetsP(s).Matched? {
      hide DecimalP, AfterP, SaysDecimal;
      a := DecimalTaken(s);
      var s1 := DecimalP(s).rest;
      b := AfterTaken('.', s1);
      var s2 := AfterP('.', s1).rest;
      c := AfterTaken('.', s2);
      d := AfterTaken('.', AfterP('.', s2).rest);
    }
  }

  lemma Ipv4Taken(s: string) returns (w: string, gap: string)
    ensures Ipv4P(s).Matched? ==>
      && SaysOperand(w, Ipv4P(s).value) && Ipv4P(s).value.Net?
      && IsGap(gap) && gap != [] && s == w + (gap + Ipv4P(s).rest)
  {
    w, gap := [], [];
    if Ipv4P(s).Matched? {
      hide OctetsP, CidrP, ThenBlanks, SaysDecimal;
      var a, b, c, d := OctetsTaken(s);
      var octets := OctetsP(s);
      var e := CidrTaken(octets.rest);
      var prefix := CidrP(octets.rest);
      gap := GapTaken(Net(octets.value, prefix.value), prefix.rest);
      w := Dotted(a, b, c, d, e);
      assert NetText(w, octets.value, prefix.value, a, b, c, d, e);
      hide NetText, IsGap, Dotted;
      Strung(a, b, c, d, e, gap + Ipv4P(s).rest);
    }
  }

  function Dotted(a: string, b: string, c: string, d: string, e: string): string {
    a + ("." + (b + ("." + (c + ("." + (d + ("/" + e)))))))
  }

  lemma Strung(a: string, b: string, c: string, d: string, e: string, rest: string)
    ensures a + ("." + (b + ("." + (c + ("." + (d + ("/" + (e + rest)))))))) == Dotted(a, b, c, d, e) + rest
  {
  }

  /** A criterion is its field, a value, and blanks behind both. */
  predicate CriterionWords(w: string, k: Criterion, gap: string, v: string, end: string) {
    && w == FieldText(k.field) + (gap + (v + end))
    && IsGap(gap) && gap != [] && IsGap(end) && end != []
  }

  ghost predicate SaysCriterion(w: string, k: Criterion) {
    exists gap, v, end :: CriterionWords(w, k, gap, v, end) && SaysOperand(v, k.value)
  }

  lemma FieldTaken(s: string) returns (gap: string)
    ensures FieldP(s).Matched? ==> IsGap(gap) && gap != [] && s == FieldText(FieldP(s).value) + (gap + FieldP(s).rest)
  {
    gap := [];
    if FieldP(s).Matched? {
      var word := FieldText(FieldP(s).value);
      assert word <= s;
      gap := GapTaken(FieldP(s).value, s[|word|..]);
      assert s == word + s[|word|..];
    }
    hide ThenBlanks;
  }

  lemma CriterionTaken(s: string) returns (w: string)
    ensures CriterionP(s).Matched? ==> SaysCriterion(w, CriterionP(s).value) && s == w + CriterionP(s).rest
  {
    w := [];
    if CriterionP(s).Matched? {
      var field := FieldP(s);
      var gap := FieldTaken(s);
      var v, end := NumberTaken(field.rest);
      if !NumberP(field.rest).Matched? { v, end := Ipv4Taken(field.rest); }
      hide FieldP, NumberP, Ipv4P;
      assert SaysOperand(v, CriterionP(s).value.value);
      var k := CriterionP(s).value;
      w := FieldText(k.field) + (gap + (v + end));
      assert CriterionWords(w, k, gap, v, end);
      hide SaysOperand, FieldText;
      Behind2(FieldText(k.field), gap, v, end, CriterionP(s).rest);
    }
  }

  lemma Behind2(f: string, gap: string, v: string, end: string, rest: string)
    ensures f + (gap + (v + (end + rest))) == f + (gap + (v + end)) + rest
  {
  }

  /** Texts end to end. */
  function Strings(ws: seq<string>): string {
    if ws == [] then [] else ws[0] + Strings(ws[1..])
  }

  lemma {:induction false} CriteriaTaken(s: string) returns (ws: seq<string>)
    ensures CriteriaP(s).Matched? ==>
      && |ws| == |CriteriaP(s).value| && s == Strings(ws) + CriteriaP(s).rest
      && forall i :: 0 <= i < |ws| ==> SaysCriterion(ws[i], CriteriaP(s).value[i])
    decreases |s|
  {
    hide *;
    CriteriaStep(s);
    ws := [];
    if CriteriaP(s).Matched? {
      NoStrings(s);
      if CriterionP(s).Matched? {
        var w := CriterionTaken(s);
        var rest := CriteriaTaken(CriterionP(s).rest);
        ws := [w] + rest;
        StringsFirst(w, rest, CriteriaP(s).rest);
      }
    }
  }

  lemma CriteriaStep(s: string)
    ensures CriterionP(s).Failed? ==> CriteriaP(s) == Matched([], s)
    ensures CriterionP(s).Thrown? ==> CriteriaP(s).Thrown?
    ensures CriterionP(s).Matched? && CriteriaP(s).Matched? ==>
      var rest := CriteriaP(CriterionP(s).rest);
      rest.Matched? && CriteriaP(s) == Matched([CriterionP(s).value] + rest.value, rest.rest)
  {
    hide CriterionP;
  }

  lemma NoStrings(s: string)
    ensures Strings([]) + s == s
  {
  }

  lemma StringsFirst(w: string, ws: seq<string>, rest: string)
    ensures Strings([w] + ws) + rest == w + (Strings(ws) + rest)
  {
    assert ([w] + ws)[1..] == ws;
  }

  lemma ProtocolTaken(s: string) returns (gap: string)
    ensures ProtocolP(s).Matched? ==>
      && IsGap(gap) && gap != []
      && s == (if ProtocolP(s).value.Tcp? then "tcp" else "udp") + (gap + ProtocolP(s).rest)
      && s[0] != ' ' && s[0] != '\t' && 'a' <= s[0] <= 'z'
  {
    gap := [];
    if ProtocolP(s).Matched? {
      var word := if ProtocolP(s).value.Tcp? then "tcp" else "udp";
      assert word <= s;
      gap := GapTaken(ProtocolP(s).value, s[3..]);
      assert s == word + s[3..];
    }
    hide ThenBlanks;
  }

  lemma VerdictTaken(s: string)
    ensures ActionP(s).Matched? ==> s == (if ActionP(s).value.Drop? then "drop" else "accept") + ActionP(s).rest
  {
  }

  /** A rule, production by production. */
  lemma RuleParts(s: string)
    requires RuleP(s).Matched?
    ensures var rule, table := RuleP(s).value, NameP(s);
      && table.Matched? && table.value == rule.table
      && (var chain := NameP(table.rest);
          && chain.Matched? && chain.value == rule.chain
          && (var protocol := ProtocolP(chain.rest);
              && protocol.Matched? && protocol.value == rule.protocol
              && (var criteria := CriteriaP(protocol.rest);
                  && criteria.Matched? && criteria.value == rule.criteria != []
                  && ActionP(criteria.rest).Matched? && ActionP(criteria.rest).value == rule.verdict
                  && ActionP(criteria.rest).rest == RuleP(s).rest)))
  {
    hide NameP, ProtocolP, CriteriaP, ActionP;
  }

  /**
    Whatever text is taken for a rule is the words of that rule in their order: table, chain, protocol, criteria
    and verdict, each behind at least one space or tab, and nothing else.
   */
  lemma RuleTaken(s: string) returns (g1: string, g2: string, g3: string, ws: seq<string>)
    requires RuleP(s).Matched?
    ensures var rule := RuleP(s).value;
      && s == rule.table + (g1 + (rule.chain + (g2 + ((if rule.protocol.Tcp? then "tcp" else "udp") + (g3
              + (Strings(ws) + ((if rule.verdict.Drop? then "drop" else "accept") + RuleP(s).rest)))))))
      && IsWord(rule.table) && IsWord(rule.chain) && |ws| == |rule.criteria| > 0
      && g1 != [] && g2 != [] && g3 != [] && IsGap(g1) && IsGap(g2) && IsGap(g3)
      && forall i :: 0 <= i < |ws| ==> SaysCriterion(ws[i], rule.criteria[i])
  {
    hide *;
    RuleParts(s);
    var chainText := NameP(s).rest;
    var protocolText := NameP(chainText).rest;
    g1 := NameTaken(s);
    g2 := NameTaken(chainText);
    NameExactly(chainText);
    g3 := ProtocolTaken(protocolText);
    ws := CriteriaTaken(ProtocolP(protocolText).rest);
    VerdictTaken(CriteriaP(ProtocolP(protocolText).rest).rest);
  }
}
