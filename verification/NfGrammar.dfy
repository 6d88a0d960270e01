/**
  The rule grammar as a parsing expression grammar: what each of its productions makes of the text that
  is left, and the round trip from a rule to its text and back.
 */
module NfGrammar {
  import opened Numerals
  import opened NfRule

  /** A production matches and leaves a rest, fails without an effect, or its action throws. */
  datatype Parsed<+T> = Matched(value: T, rest: string) | Failed | Thrown

  predicate IsBlank(c: char) {
    c == ' ' || c == '\t'
  }

  predicate IsLetter(c: char) {
    'a' <= c <= 'z' || 'A' <= c <= 'Z'
  }

  predicate Blanks(s: string) {
    forall c :: c in s ==> IsBlank(c)
  }

  predicate Letters(s: string) {
    forall c :: c in s ==> IsLetter(c)
  }

  // ----- productions -----

  /** [ \t]* */
  function SkipBlanks(s: string): (rest: string)
    ensures |rest| <= |s|
  {
    if s != [] && IsBlank(s[0]) then SkipBlanks(s[1..]) else s
  }

  /** A value and then [ \t]+ */
  function ThenBlanks<T>(v: T, s: string): (r: Parsed<T>)
    ensures r.Matched? ==> r.value == v
    ensures !r.Thrown? && (r.Matched? ==> |r.rest| < |s|)
  {
    if s != [] && IsBlank(s[0]) then Matched(v, SkipBlanks(s)) else Failed
  }

  function LetterPrefix(s: string): (p: string)
    ensures p <= s && Letters(p) && (|p| < |s| ==> !IsLetter(s[|p|]))
  {
    if s == [] || !IsLetter(s[0]) then [] else [s[0]] + LetterPrefix(s[1..])
  }

  /** table and chain: letters, and blanks if there are any. */
  function NameP(s: string): (r: Parsed<string>)
    ensures !r.Thrown? && (r.Matched? ==> |r.rest| < |s|)
  {
    var name := LetterPrefix(s);
    if name == [] then Failed else Matched(name, SkipBlanks(s[|name|..]))
  }

  function ProtocolP(s: string): (r: Parsed<Protocol>)
    ensures !r.Thrown? && (r.Matched? ==> |r.rest| < |s|)
  {
    if "tcp" <= s then ThenBlanks(Tcp, s[3..]) else if "udp" <= s then ThenBlanks(Udp, s[3..]) else Failed
  }

  /** transport_header before network_header */
  function FieldP(s: string): (r: Parsed<Selector>)
    ensures !r.Thrown? && (r.Matched? ==> |r.rest| < |s|)
  {
    if "prot" <= s && ThenBlanks(Prot, s[4..]).Matched? then ThenBlanks(Prot, s[4..])
    else if "dport" <= s && ThenBlanks(Dport, s[5..]).Matched? then ThenBlanks(Dport, s[5..])
    else if "saddr" <= s then ThenBlanks(Saddr, s[5..])
    else if "daddr" <= s then ThenBlanks(Daddr, s[5..])
    else Failed
  }

  /** hex: the action joins the digits with commas, so that only the first of them is read. */
  function HexP(s: string): Parsed<nat> {
    if !("0x" <= s) then Failed
    else
      var digits := DigitPrefix(s[2..], 16);
      if digits == [] then Failed
      else assert digits[0] in digits; Matched(DigitOf(digits[0]).value, s[2 + |digits|..])
  }

  function DecimalP(s: string): Parsed<nat> {
    var digits := DigitPrefix(s, 10);
    if digits == [] then Failed else Matched(ValueOf(digits, 10), s[|digits|..])
  }

  function NumberP(s: string): (r: Parsed<Operand>)
    ensures r.Matched? ==> |r.rest| < |s|
  {
    var num := if HexP(s).Matched? then HexP(s) else DecimalP(s);
    if num.Matched? then ThenBlanks(Figure(num.value), num.rest) else Failed
  }

  /** The character c and then a decimal number. */
  function AfterP(c: char, s: string): Parsed<nat> {
    if s != [] && s[0] == c then DecimalP(s[1..]) else Failed
  }

  function OctetsP(s: string): (r: Parsed<seq<nat>>)
    ensures !r.Thrown?
  {
    var a := DecimalP(s);
    if !a.Matched? then Failed
    else
      var b := AfterP('.', a.rest);
      if !b.Matched? then Failed
      else
        var c := AfterP('.', b.rest);
        if !c.Matched? then Failed
        else
          var d := AfterP('.', c.rest);
          if !d.Matched? then Failed else Matched([a.value, b.value, c.value, d.value], d.rest)
  }

  /** ipv4cidr: a slash and one or two digits; it comes first, and then always matches. */
  function CidrP(s: string): (r: Parsed<nat>)
    ensures !r.Thrown?
  {
    if |s| < 2 || s[0] != '/' || !IsDigit(s[1], 10) then Failed
    else if |s| > 2 && IsDigit(s[2], 10) then
      Matched(10 * DigitOf(s[1]).value + DigitOf(s[2]).value, s[3..])
    else Matched(DigitOf(s[1]).value, s[2..])
  }

  function Ipv4P(s: string): (r: Parsed<Operand>)
    ensures !r.Thrown? && (r.Matched? ==> |r.rest| < |s|)
  {
    var octets := OctetsP(s);
    if !octets.Matched? then Failed
    else
      var prefix := CidrP(octets.rest);
      if !prefix.Matched? then Failed else ThenBlanks(Net(octets.value, prefix.value), prefix.rest)
  }

  /** number, then ipv4; what is neither is tried as ipv6, and the action of that throws. */
  function ValueP(s: string): (r: Parsed<Operand>)
    ensures r.Matched? ==> |r.rest| < |s|
  {
    if NumberP(s).Matched? then NumberP(s) else if Ipv4P(s).Matched? then Ipv4P(s) else Thrown
  }

  function CriterionP(s: string): (r: Parsed<Criterion>)
    ensures r.Matched? ==> |r.rest| < |s|
  {
    var field := FieldP(s);
    if !field.Matched? then Failed
    else
      match ValueP(field.rest)
      case Matched(v, rest) => Matched(Criterion(field.value, v), rest)
      case Failed => Failed
      case Thrown => Thrown
  }

  /** As many criteria as there are. */
  function CriteriaP(s: string): (r: Parsed<seq<Criterion>>)
    ensures !r.Failed?
    decreases |s|
  {
    match CriterionP(s)
    case Failed => Matched([], s)
    case Thrown => Thrown
    case Matched(k, rest) =>
      match CriteriaP(rest)
      case Matched(ks, end) => Matched([k] + ks, end)
      case Thrown => Thrown
  }

  function ActionP(s: string): (r: Parsed<Verdict>)
    ensures !r.Thrown?
  {
    if "drop" <= s then Matched(Drop, s[4..]) else if "accept" <= s then Matched(Accept, s[6..]) else Failed
  }

  /** rule_expression */
  function RuleP(s: string): Parsed<Rule> {
    var table := NameP(s);
    if !table.Matched? then Failed
    else
      var chain := NameP(table.rest);
      if !chain.Matched? then Failed
      else
        var protocol := ProtocolP(chain.rest);
        if !protocol.Matched? then Failed
        else
          var criteria := CriteriaP(protocol.rest);
          if criteria.Thrown? then Thrown
          else if criteria.value == [] then Failed
          else
            var action := ActionP(criteria.rest);
            if !action.Matched? then Failed
            else Matched(Rule(table.value, chain.value, protocol.value, criteria.value, action.value), action.rest)
  }

  // ----- the text of a rule -----

  function FieldText(f: Selector): string {
    match f case Saddr => "saddr" case Daddr => "daddr" case Dport => "dport" case Prot => "prot"
  }

  function OperandText(v: Operand): string
    requires v.Net? ==> |v.octets| == 4
  {
    match v
    case Figure(n) => Numeral(n, 10)
    case Net(o, prefix) =>
      Numeral(o[0], 10) + ("." + (Numeral(o[1], 10) + ("." + (Numeral(o[2], 10) + ("." + (Numeral(o[3], 10)
      + ("/" + Numeral(prefix, 10))))))))
  }

  predicate Writable(k: Criterion) {
    k.value.Net? ==> |k.value.octets| == 4 && k.value.prefix < 100
  }

  function CriterionText(k: Criterion, gap: string, end: string): string
    requires Writable(k)
  {
    FieldText(k.field) + (gap + (OperandText(k.value) + end))
  }

  /** Two gaps to a criterion, in order. */
  function CriteriaText(ks: seq<Criterion>, gaps: seq<string>): string
    requires (forall k :: k in ks ==> Writable(k)) && |gaps| == 2 * |ks|
  {
    if ks == [] then []
    else
      assert ks[0] in ks && forall k :: k in ks[1..] ==> k in ks;
      CriterionText(ks[0], gaps[0], gaps[1]) + CriteriaText(ks[1..], gaps[2..])
  }

  function ProtocolName(p: Protocol): string {
    if p.Tcp? then "tcp" else "udp"
  }

  function VerdictText(v: Verdict): string {
    if v.Drop? then "drop" else "accept"
  }

  predicate WritableRule(rule: Rule) {
    && rule.table != [] && Letters(rule.table) && rule.chain != [] && Letters(rule.chain)
    && rule.criteria != [] && forall k :: k in rule.criteria ==> Writable(k)
  }

  predicate Gap(gap: string) {
    gap != [] && Blanks(gap)
  }

  /** Blanks for every place between two words of a rule. */
  predicate GapsFor(rule: Rule, gaps: seq<string>) {
    |gaps| == 3 + 2 * |rule.criteria| && forall i :: 0 <= i < |gaps| ==> Gap(gaps[i])
  }

  /** The rule in words, with the given blanks between them. */
  function RuleText(rule: Rule, gaps: seq<string>): string
    requires WritableRule(rule) && GapsFor(rule, gaps)
  {
    rule.table + (gaps[0] + (rule.chain + (gaps[1] + (ProtocolName(rule.protocol) + (gaps[2]
    + (CriteriaText(rule.criteria, gaps[3..]) + VerdictText(rule.verdict)))))))
  }

  // ----- round trip -----

  predicate StartsSolid(s: string) {
    s != [] && !IsBlank(s[0])
  }

  lemma {:induction false} SkipGap(gap: string, s: string)
    requires Blanks(gap) && StartsSolid(s)
    ensures SkipBlanks(gap + s) == s
  {
    if gap == [] {
      assert gap + s == s;
    } else {
      assert gap[0] in gap && forall c :: c in gap[1..] ==> c in gap;
      SkipGap(gap[1..], s);
      assert (gap + s)[1..] == gap[1..] + s;
    }
  }

  lemma ThenGap<T>(v: T, gap: string, s: string)
    requires Gap(gap) && StartsSolid(s)
    ensures ThenBlanks(v, gap + s) == Matched(v, s)
  {
    assert gap[0] in gap;
    SkipGap(gap, s);
    hide SkipBlanks;
  }

  lemma {:induction false} LetterPrefixOf(name: string, s: string)
    requires Letters(name) && (s == [] || !IsLetter(s[0]))
    ensures LetterPrefix(name + s) == name
  {
    if name == [] {
      assert name + s == s;
    } else {
      assert name[0] in name && forall c :: c in name[1..] ==> c in name;
      LetterPrefixOf(name[1..], s);
      assert (name + s)[1..] == name[1..] + s;
    }
  }

  lemma NameRead(name: string, gap: string, s: string)
    requires name != [] && Letters(name) && Gap(gap) && StartsSolid(s)
    ensures NameP(name + (gap + s)) == Matched(name, s)
  {
    assert gap[0] in gap;
    LetterPrefixOf(name, gap + s);
    SkipGap(gap, s);
    assert (name + (gap + s))[|name|..] == gap + s;
    hide LetterPrefix, SkipBlanks, Letters;
  }

  lemma {:induction false} DigitPrefixOf(digits: string, radix: nat, s: string)
    requires AllDigits(digits, radix) && (s == [] || !IsDigit(s[0], radix))
    ensures DigitPrefix(digits + s, radix) == digits
  {
    if digits == [] {
      assert digits + s == s;
    } else {
      assert digits[0] in digits && forall c :: c in digits[1..] ==> c in digits;
      DigitPrefixOf(digits[1..], radix, s);
      assert (digits + s)[1..] == digits[1..] + s;
    }
  }

  lemma DecimalRead(n: nat, s: string)
    requires s != [] && !IsDigit(s[0], 10)
    ensures DecimalP(Numeral(n, 10) + s) == Matched(n, s)
  {
    NumeralValue(n, 10);
    DigitPrefixOf(Numeral(n, 10), 10, s);
    hide Numeral, ValueOf, DigitPrefix, AllDigits;
    assert (Numeral(n, 10) + s)[|Numeral(n, 10)|..] == s;
  }

  lemma AfterRead(c: char, n: nat, s: string)
    requires s != [] && !IsDigit(s[0], 10)
    ensures AfterP(c, [c] + (Numeral(n, 10) + s)) == Matched(n, s)
  {
    DecimalRead(n, s);
    hide DecimalP, Numeral;
    assert ([c] + (Numeral(n, 10) + s))[1..] == Numeral(n, 10) + s;
  }

  /** No numeral begins like a hexadecimal number. */
  lemma NotHex(n: nat, s: string)
    requires s != [] && s[0] != 'x'
    ensures HexP(Numeral(n, 10) + s).Failed?
  {
    hide Numeral, ValueOf, DigitPrefix;
    NumeralValue(n, 10);
    var digits := Numeral(n, 10);
    var t := digits + s;
    assert |digits| > 1 ==> t[1] in digits;
    assert t[1] != 'x';
  }

  lemma NumberRead(n: nat, gap: string, s: string)
    requires Gap(gap) && StartsSolid(s)
    ensures NumberP(Numeral(n, 10) + (gap + s)) == Matched(Figure(n), s)
  {
    assert gap[0] in gap;
    DecimalRead(n, gap + s);
    NotHex(n, gap + s);
    ThenGap(Figure(n), gap, s);
    hide DecimalP, HexP, ThenBlanks, Numeral;
  }

  lemma PrefixDigits(prefix: nat)
    requires prefix < 100
    ensures prefix < 10 ==> Numeral(prefix, 10) == [Digit(prefix)]
    ensures prefix >= 10 ==> Numeral(prefix, 10) == [Digit(prefix / 10), Digit(prefix % 10)]
  {
    if prefix >= 10 { assert Numeral(prefix / 10, 10) == [Digit(prefix / 10)]; }
  }

  lemma CidrRead(prefix: nat, s: string)
    requires prefix < 100 && s != [] && !IsDigit(s[0], 10)
    ensures CidrP("/" + (Numeral(prefix, 10) + s)) == Matched(prefix, s)
  {
    PrefixDigits(prefix);
    hide Numeral, DigitOf;
    var t := "/" + (Numeral(prefix, 10) + s);
    if prefix < 10 {
      assert t[1] == Digit(prefix) && t[2..] == s;
    } else {
      assert t[1] == Digit(prefix / 10) && t[2] == Digit(prefix % 10) && t[3..] == s;
    }
  }

  lemma OctetsRead(o: seq<nat>, s: string)
    requires |o| == 4 && s != [] && !IsDigit(s[0], 10)
    ensures OctetsP(Numeral(o[0], 10) + ("." + (Numeral(o[1], 10) + ("." + (Numeral(o[2], 10)
                    + ("." + (Numeral(o[3], 10) + s))))))) == Matched(o, s)
  {
    hide DecimalP, AfterP, Numeral;
    var t3 := "." + (Numeral(o[3], 10) + s);
    var t2 := "." + (Numeral(o[2], 10) + t3);
    var t1 := "." + (Numeral(o[1], 10) + t2);
    DecimalRead(o[0], t1);
    AfterRead('.', o[1], t2);
    AfterRead('.', o[2], t3);
    AfterRead('.', o[3], s);
    assert [o[0], o[1], o[2], o[3]] == o;
  }

  /** An address is no number: the blanks are missing after its first octet. */
  lemma NotNumber(n: nat, s: string)
    requires s != [] && s[0] == '.'
    ensures NumberP(Numeral(n, 10) + s).Failed?
  {
    DecimalRead(n, s);
    NotHex(n, s);
    hide DecimalP, HexP, Numeral;
  }

  lemma NetRead(o: seq<nat>, prefix: nat, gap: string, s: string)
    requires |o| == 4 && prefix < 100 && Gap(gap) && StartsSolid(s)
    ensures ValueP(OperandText(Net(o, prefix)) + (gap + s)) == Matched(Net(o, prefix), s)
  {
    assert gap[0] in gap;
    var cidr := "/" + (Numeral(prefix, 10) + (gap + s));
    OctetsRead(o, cidr);
    CidrRead(prefix, gap + s);
    ThenGap(Net(o, prefix), gap, s);
    var dots := "." + (Numeral(o[1], 10) + ("." + (Numeral(o[2], 10) + ("." + (Numeral(o[3], 10) + cidr)))));
    NotNumber(o[0], dots);
    NetText(o, prefix, gap + s);
    hide OctetsP, CidrP, NumberP, ThenBlanks, Numeral, OperandText;
  }

  lemma NetText(o: seq<nat>, prefix: nat, s: string)
    requires |o| == 4
    ensures OperandText(Net(o, prefix)) + s
         == Numeral(o[0], 10) + ("." + (Numeral(o[1], 10) + ("." + (Numeral(o[2], 10) + ("." + (Numeral(o[3], 10)
            + ("/" + (Numeral(prefix, 10) + s))))))))
  {
    hide Numeral;
  }

  lemma ValueRead(v: Operand, gap: string, s: string)
    requires Gap(gap) && StartsSolid(s) && (v.Net? ==> |v.octets| == 4 && v.prefix < 100)
    ensures ValueP(OperandText(v) + (gap + s)) == Matched(v, s)
  {
    match v
    case Figure(n) =>
      NumberRead(n, gap, s);
      hide NumberP, Numeral;
    case Net(o, prefix) => NetRead(o, prefix, gap, s);
  }

  lemma FieldRead(f: Selector, gap: string, s: string)
    requires Gap(gap) && StartsSolid(s)
    ensures FieldP(FieldText(f) + (gap + s)) == Matched(f, s)
  {
    ThenGap(f, gap, s);
    var t := FieldText(f) + (gap + s);
    hide ThenBlanks;
    match f
    case Prot => assert t[4..] == gap + s;
    case Dport => assert t[0] == 'd' && t[1] == 'p' && t[5..] == gap + s;
    case Saddr => assert t[0] == 's' && t[5..] == gap + s;
    case Daddr => assert t[0] == 'd' && t[1] == 'a' && t[5..] == gap + s;
  }

  lemma OperandSolid(v: Operand)
    requires v.Net? ==> |v.octets| == 4
    ensures StartsSolid(OperandText(v))
  {
    var n := if v.Figure? then v.n else v.octets[0];
    NumeralValue(n, 10);
    assert Numeral(n, 10)[0] in Numeral(n, 10);
    hide Numeral, ValueOf;
  }

  lemma CriterionRead(k: Criterion, gap: string, end: string, s: string)
    requires Writable(k) && Gap(gap) && Gap(end) && StartsSolid(s)
    ensures CriterionP(CriterionText(k, gap, end) + s) == Matched(k, s)
  {
    var value := OperandText(k.value) + (end + s);
    OperandSolid(k.value);
    assert CriterionText(k, gap, end) + s == FieldText(k.field) + (gap + value);
    hide OperandText;
    FieldRead(k.field, gap, value);
    ValueRead(k.value, end, s);
    hide FieldP, ValueP, FieldText, CriterionText;
  }

  lemma CriteriaSolid(ks: seq<Criterion>, gaps: seq<string>, v: Verdict)
    requires (forall k :: k in ks ==> Writable(k)) && |gaps| == 2 * |ks|
    ensures StartsSolid(CriteriaText(ks, gaps) + VerdictText(v))
  {
    if ks != [] {
      assert ks[0] in ks;
      assert StartsSolid(FieldText(ks[0].field));
      hide OperandText;
    }
  }

  /** An action is no criterion. */
  lemma NoCriterion(v: Verdict)
    ensures CriterionP(VerdictText(v)).Failed?
  {
    var t := VerdictText(v);
    if v.Drop? { assert t[1] == 'r'; } else { assert t[0] == 'a'; }
  }

  lemma CriteriaTextFirst(ks: seq<Criterion>, gaps: seq<string>, end: string)
    requires ks != [] && (forall k :: k in ks ==> Writable(k)) && |gaps| == 2 * |ks|
    ensures Writable(ks[0]) && forall k :: k in ks[1..] ==> Writable(k)
    ensures CriteriaText(ks, gaps) + end
         == CriterionText(ks[0], gaps[0], gaps[1]) + (CriteriaText(ks[1..], gaps[2..]) + end)
  {
    assert ks[0] in ks && forall k :: k in ks[1..] ==> k in ks;
    hide CriterionText, Writable;
  }

  lemma CriteriaPFirst(s: string, k: Criterion, rest: string)
    requires CriterionP(s) == Matched(k, rest) && CriteriaP(rest).Matched?
    ensures CriteriaP(s) == Matched([k] + CriteriaP(rest).value, CriteriaP(rest).rest)
  {
    hide CriterionP;
  }

  lemma {:induction false} CriteriaRead(ks: seq<Criterion>, gaps: seq<string>, v: Verdict)
    requires (forall k :: k in ks ==> Writable(k)) && |gaps| == 2 * |ks| && forall i :: 0 <= i < |gaps| ==> Gap(gaps[i])
    ensures CriteriaP(CriteriaText(ks, gaps) + VerdictText(v)) == Matched(ks, VerdictText(v))
  {
    if ks == [] {
      NoCriterion(v);
      assert [] + VerdictText(v) == VerdictText(v);
      hide CriterionP, VerdictText;
    } else {
      hide *;
      CriteriaTextFirst(ks, gaps, VerdictText(v));
      var rest := CriteriaText(ks[1..], gaps[2..]) + VerdictText(v);
      CriteriaSolid(ks[1..], gaps[2..], v);
      CriterionRead(ks[0], gaps[0], gaps[1], rest);
      CriteriaRead(ks[1..], gaps[2..], v);
      CriteriaPFirst(CriteriaText(ks, gaps) + VerdictText(v), ks[0], rest);
      assert [ks[0]] + ks[1..] == ks;
    }
  }

  lemma ProtocolRead(p: Protocol, gap: string, s: string)
    requires Gap(gap) && StartsSolid(s)
    ensures ProtocolP(ProtocolName(p) + (gap + s)) == Matched(p, s)
  {
    ThenGap(p, gap, s);
    var t := ProtocolName(p) + (gap + s);
    assert t[3..] == gap + s && t[0] == ProtocolName(p)[0];
    hide ThenBlanks;
  }

  lemma ActionRead(v: Verdict)
    ensures ActionP(VerdictText(v)) == Matched(v, [])
  {
    assert "accept"[0] == 'a' && "drop"[0] == 'd';
  }

  lemma NameSolid(name: string, s: string)
    requires name != [] && Letters(name)
    ensures StartsSolid(name + s)
  {
    assert name[0] in name;
  }

  lemma ProtocolSolid(p: Protocol, s: string)
    ensures StartsSolid(ProtocolName(p) + s)
  {
    assert ProtocolName(p)[0] != ' ';
  }

  /** Reading the text of a rule gives the rule back and leaves nothing, whatever blanks stand between its words. */
  lemma RuleRoundTrip(rule: Rule, gaps: seq<string>)
    requires WritableRule(rule) && GapsFor(rule, gaps)
    ensures RuleP(RuleText(rule, gaps)) == Matched(rule, [])
  {
    var criteria := CriteriaText(rule.criteria, gaps[3..]) + VerdictText(rule.verdict);
    var protocol := ProtocolName(rule.protocol) + (gaps[2] + criteria);
    var chain := rule.chain + (gaps[1] + protocol);
    assert RuleText(rule, gaps) == rule.table + (gaps[0] + chain) by { hide CriteriaText, VerdictText, ProtocolName; }
    hide CriteriaText, VerdictText, ProtocolName, StartsSolid, Gap, NameP, ProtocolP, CriteriaP, ActionP, RuleText;
    CriteriaSolid(rule.criteria, gaps[3..], rule.verdict);
    ProtocolSolid(rule.protocol, gaps[2] + criteria);
    NameSolid(rule.chain, gaps[1] + protocol);
    NameRead(rule.table, gaps[0], chain);
    NameRead(rule.chain, gaps[1], protocol);
    ProtocolRead(rule.protocol, gaps[2], criteria);
    CriteriaRead(rule.criteria, gaps[3..], rule.verdict);
    ActionRead(rule.verdict);
    hide Letters;
  }

  /** Different rules have different texts, whatever blanks stand between their words. */
  lemma RuleTextInjective(a: Rule, gaps: seq<string>, b: Rule, others: seq<string>)
    requires WritableRule(a) && GapsFor(a, gaps) && WritableRule(b) && GapsFor(b, others)
    requires RuleText(a, gaps) == RuleText(b, others)
    ensures a == b
  {
    RuleRoundTrip(a, gaps);
    RuleRoundTrip(b, others);
    hide *;
  }
}
