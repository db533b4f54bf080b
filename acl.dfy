/**
 * The access-control list of `hfs/core.py`: rule strings such as `127.0.0.1`,
 * `d10.0.0.1/24` or `localhost/255.255.255.0` are parsed into rules, and a
 * client address is checked against the rules in list order, first match wins.
 *
 * Matching is the literal formula `((addr ^ N) ^ M) == 0` of the source, not a
 * CIDR test, and octets are not range-checked, so all arithmetic is on
 * unbounded naturals.
 */
module Acl {
  import opened Results
  import opened Text
  import opened Bits

  /** A parsed rule. A string outside the grammar gives a rule with no fields. */
  datatype ACLRule =
    | Invalid(ruleStr: string)
    | Valid(ruleStr: string, deny: bool, addr: nat, mask: nat)

  /** `int(None)` raised by the constructor for `localhost` with a dotted mask. */
  datatype RuleError = TypeError

  /** Reading `self.addr` of an invalid rule. */
  datatype MatchError = AttributeError

  /** The value of `localhost`, 127.0.0.1. */
  const Localhost: nat := 0x7f000001

  /** The regular expression `\d+\.\d+\.\d+\.\d+`, matched in full. */
  predicate IsDottedQuad(s: string)
  {
    var parts := Split(s, '.');
    |parts| == 4 && forall k :: 0 <= k < 4 ==> IsDigits(parts[k])
  }

  /** `a << 24 | b << 16 | c << 8 | d`. */
  function QuadValue(a: nat, b: nat, c: nat, d: nat): nat
  {
    Or(Or(Or(Shl(a, 24), Shl(b, 16)), Shl(c, 8)), d)
  }

  /** The four `int(...)` groups of a dotted quad combined by `QuadValue`. */
  function DottedValue(s: string): nat
    requires IsDottedQuad(s)
  {
    var p := Split(s, '.');
    QuadValue(DigitsValue(p[0]), DigitsValue(p[1]), DigitsValue(p[2]), DigitsValue(p[3]))
  }

  /** A reading of a rule string: the deny marker, the address text and the optional
      mask text after the `/`. */
  datatype RuleParts = RuleParts(deny: bool, addrText: string, maskText: Option<string>)

  /** The string a reading spells. */
  function Assemble(p: RuleParts): string
  {
    (if p.deny then "d" else "") + p.addrText + (if p.maskText.Some? then "/" + p.maskText.value else "")
  }

  /** The groups of the rule pattern: `(\d+\.\d+\.\d+\.\d+|localhost)` and
      `(\d+|\d+\.\d+\.\d+\.\d+)`. */
  predicate WellFormed(p: RuleParts)
  {
    && (IsDottedQuad(p.addrText) || p.addrText == "localhost")
    && (p.maskText.Some? ==> IsDigits(p.maskText.value) || IsDottedQuad(p.maskText.value))
  }

  /** `s` is matched by `^(d?)(...)(?:/(...))?$` with the groups of `p`. */
  predicate Spells(s: string, p: RuleParts)
  {
    AnchorBody(s) == Assemble(p) && WellFormed(p)
  }

  /** How the pattern reads a string: a leading `d` is the marker (no address starts
      with `d`) and the first `/` ends the address (no address contains one). */
  function Decompose(body: string): (p: RuleParts)
    ensures Assemble(p) == body
  {
    var deny := |body| > 0 && body[0] == 'd';
    var rest := if deny then body[1..] else body;
    assert body == (if deny then "d" else "") + rest;
    ReadAfterMarker(deny, rest)
  }

  /** The address up to the first `/` and the mask after it. */
  function ReadAfterMarker(deny: bool, rest: string): (p: RuleParts)
    ensures p.deny == deny && p.addrText + (if p.maskText.Some? then "/" + p.maskText.value else "") == rest
  {
    var slash := IndexOf(rest, '/');
    assert slash < |rest| ==> rest == rest[..slash] + "/" + rest[slash + 1..];
    RuleParts(deny, rest[..slash], if slash < |rest| then Some(rest[slash + 1..]) else None)
  }

  /** The field assignments of the constructor for a matched string. A dotted mask is
      built from the ADDRESS groups, so it equals the address, and for `localhost`
      `int(None)` raises because there are no address groups. */
  function Interpret(s: string, p: RuleParts): Result<ACLRule, RuleError>
    requires WellFormed(p)
  {
    var addr := if p.addrText == "localhost" then Localhost else DottedValue(p.addrText);
    match p.maskText
    case None => Ok(Valid(s, p.deny, addr, 0))
    case Some(m) =>
      if IsDottedQuad(m) then
        (if p.addrText == "localhost" then Err(TypeError) else Ok(Valid(s, p.deny, addr, addr)))
      else Ok(Valid(s, p.deny, addr, DigitsValue(m)))
  }

  /** `ACLRule(rule_str)`. */
  function ParseRule(s: string): Result<ACLRule, RuleError>
  {
    var p := Decompose(AnchorBody(s));
    if WellFormed(p) then Interpret(s, p) else Ok(Invalid(s))
  }

  lemma DottedQuadShape(s: string)
    requires IsDottedQuad(s)
    ensures s != "" && IsDigit(s[0]) && '/' !in s
  {
    var p := Split(s, '.');
    JoinSplit(s, '.');
    assert IsDigits(p[0]);
    assert s == p[0] + ['.'] + JoinWith(p[1..], '.');
    SlashFree(p, '.');
  }

  lemma {:induction false} SlashFree(parts: seq<string>, c: char)
    requires c != '/'
    requires forall k :: 0 <= k < |parts| ==> IsDigits(parts[k])
    ensures '/' !in JoinWith(parts, c)
  {
    if |parts| > 1 {
      SlashFree(parts[1..], c);
    } else if |parts| == 1 {
      assert IsDigits(parts[0]);
    }
  }

  /** A well-formed address starts with a digit or `l` and has no `/`. */
  lemma AddressShape(p: RuleParts)
    requires WellFormed(p)
    ensures p.addrText != "" && p.addrText[0] != 'd' && '/' !in p.addrText
  {
    if IsDottedQuad(p.addrText) {
      DottedQuadShape(p.addrText);
    }
  }

  /** After the marker, the first `/` ends a slash-free address. */
  lemma SplitAtSlash(addr: string, mask: Option<string>)
    requires '/' !in addr
    ensures var rest := addr + (if mask.Some? then "/" + mask.value else "");
      var slash := IndexOf(rest, '/');
      rest[..slash] == addr && (if slash < |rest| then Some(rest[slash + 1..]) else None) == mask
  {
    var rest := addr + (if mask.Some? then "/" + mask.value else "");
    if mask.Some? {
      IndexOfAfterFree(addr, '/', mask.value);
      assert rest == addr + ['/'] + mask.value;
      assert rest[..|addr|] == addr;
      assert rest[|addr| + 1..] == mask.value;
    } else {
      assert IndexOf(rest, '/') == |rest|;
      assert rest[..|rest|] == addr;
    }
  }

  lemma DecomposeOf(p: RuleParts)
    requires p.addrText != "" && p.addrText[0] != 'd' && '/' !in p.addrText
    ensures Decompose(Assemble(p)) == p
  {
    var body := Assemble(p);
    var rest := p.addrText + (if p.maskText.Some? then "/" + p.maskText.value else "");
    if p.deny {
      assert body == "d" + rest && body[1..] == rest;
    } else {
      assert body == rest && body[0] == p.addrText[0];
    }
    assert Decompose(body) == ReadAfterMarker(p.deny, rest);
    SplitAtSlash(p.addrText, p.maskText);
  }

  /** A well-formed reading is the only one of the string it spells. */
  lemma DecomposeAssemble(p: RuleParts)
    requires WellFormed(p)
    ensures Decompose(Assemble(p)) == p
  {
    AddressShape(p);
    DecomposeOf(p);
  }

  /** A string of the grammar parses to the constructor's fields for its one reading. */
  lemma ParseSpelled(s: string, p: RuleParts)
    requires Spells(s, p)
    ensures ParseRule(s) == Interpret(s, p)
  {
    DecomposeAssemble(p);
  }

  /** Parsing gives an invalid rule, carrying only the string, exactly for the strings
      outside the grammar. */
  lemma ParseInvalidIff(s: string)
    ensures ParseRule(s) == Ok(Invalid(s)) <==> forall p :: !Spells(s, p)
  {
    if exists p :: Spells(s, p) {
      var p :| Spells(s, p);
      ParseSpelled(s, p);
    } else {
      assert !Spells(s, Decompose(AnchorBody(s)));
    }
  }

  /** Only a lower-case `d` marks a deny rule: an upper-case `D` makes the string invalid. */
  lemma UpperCaseDenyIsInvalid(rest: string)
    ensures ParseRule("D" + rest) == Ok(Invalid("D" + rest))
  {
    var s := "D" + rest;
    var body := AnchorBody(s);
    assert |body| > 0 && body[0] == 'D';
    var p := Decompose(body);
    assert !p.deny;
    if p.addrText != "" {
      assert p.addrText[0] == 'D';
      if IsDottedQuad(p.addrText) {
        DottedQuadShape(p.addrText);
      }
    }
    assert !WellFormed(p);
  }

  /** In a valid rule the deny flag is set exactly by a leading lower-case `d`. */
  lemma DenyFlag(s: string)
    requires ParseRule(s).Ok? && ParseRule(s).value.Valid?
    ensures ParseRule(s).value.deny <==> |AnchorBody(s)| > 0 && AnchorBody(s)[0] == 'd'
  {
  }

  /** `localhost` is 127.0.0.1 with mask 0. */
  lemma ParseLocalhost()
    ensures ParseRule("localhost") == Ok(Valid("localhost", false, 0x7f000001, 0))
  {
    ParseSpelled("localhost", RuleParts(false, "localhost", None));
  }

  /** The client string as the pattern `^(\d+)\.(\d+)\.(\d+)\.(\d+)$` sees it. */
  predicate IsClientQuad(client: string)
  {
    IsDottedQuad(AnchorBody(client))
  }

  function ClientValue(client: string): nat
    requires IsClientQuad(client)
  {
    DottedValue(AnchorBody(client))
  }

  /** `ACLRule.match(addr)`. The client is parsed first, so an invalid rule fails only
      for a client that is a dotted quad. */
  function Match(rule: ACLRule, client: string): Result<bool, MatchError>
  {
    if !IsClientQuad(client) then Ok(false)
    else if rule.Invalid? then Err(AttributeError)
    else Ok(Xor(Xor(ClientValue(client), rule.addr), rule.mask) == 0)
  }

  /** A client that is not a dotted quad matches no rule, valid or not; a valid rule
      matches exactly the one address `N ^ M`. */
  lemma MatchMeaning(rule: ACLRule, client: string)
    ensures !IsClientQuad(client) ==> Match(rule, client) == Ok(false)
    ensures IsClientQuad(client) && rule.Invalid? ==> Match(rule, client) == Err(AttributeError)
    ensures IsClientQuad(client) && rule.Valid? ==>
            (Match(rule, client) == Ok(true) <==> ClientValue(client) == Xor(rule.addr, rule.mask))
  {
    if IsClientQuad(client) && rule.Valid? {
      XorMatch(ClientValue(client), rule.addr, rule.mask);
    }
  }

  /** A rule without a mask clause matches exactly its own address. */
  lemma UnmaskedMatchesOwnAddress(s: string, deny: bool, addrText: string, client: string)
    requires Spells(s, RuleParts(deny, addrText, None))
    requires IsClientQuad(client)
    ensures ParseRule(s).Ok? && ParseRule(s).value.Valid?
    ensures Match(ParseRule(s).value, client) == Ok(true) <==> ClientValue(client) == ParseRule(s).value.addr
  {
    ParseSpelled(s, RuleParts(deny, addrText, None));
    var rule := ParseRule(s).value;
    XorMatch(ClientValue(client), rule.addr, 0);
    XorZeroRight(rule.addr);
  }

  /** A dotted mask is built from the address groups, so it equals the address. */
  lemma DottedMaskIsAddress(s: string, p: RuleParts)
    requires Spells(s, p) && p.addrText != "localhost"
    requires p.maskText.Some? && IsDottedQuad(p.maskText.value)
    ensures IsDottedQuad(p.addrText)
    ensures ParseRule(s) == Ok(Valid(s, p.deny, DottedValue(p.addrText), DottedValue(p.addrText)))
  {
    ParseSpelled(s, p);
  }

  /** A rule whose mask equals its address matches only clients whose four numbers are
      all zero, such as `0.0.0.0`. */
  lemma MaskIsAddressMatchesOnlyZero(rule: ACLRule, client: string)
    requires rule.Valid? && rule.mask == rule.addr
    requires IsClientQuad(client)
    ensures Match(rule, client) == Ok(true) <==> AllZeroOctets(client)
  {
    MatchMeaning(rule, client);
    XorZeroIff(rule.addr, rule.addr);
    ClientValueZeroIff(client);
  }

  /** The four numbers of a dotted-quad client are all zero. */
  predicate AllZeroOctets(client: string)
    requires IsClientQuad(client)
  {
    var p := Split(AnchorBody(client), '.');
    DigitsValue(p[0]) == 0 && DigitsValue(p[1]) == 0 && DigitsValue(p[2]) == 0 && DigitsValue(p[3]) == 0
  }

  lemma ClientValueZeroIff(client: string)
    requires IsClientQuad(client)
    ensures ClientValue(client) == 0 <==> AllZeroOctets(client)
  {
    var p := Split(AnchorBody(client), '.');
    assert IsDigits(p[0]) && IsDigits(p[1]) && IsDigits(p[2]) && IsDigits(p[3]);
    var a, b, c, d := DigitsValue(p[0]), DigitsValue(p[1]), DigitsValue(p[2]), DigitsValue(p[3]);
    assert ClientValue(client) == QuadValue(a, b, c, d);
    QuadValueZeroIff(a, b, c, d);
  }

  lemma QuadValueZeroIff(a: nat, b: nat, c: nat, d: nat)
    ensures QuadValue(a, b, c, d) == 0 <==> a == 0 && b == 0 && c == 0 && d == 0
  {
    OrZeroIff(Or(Or(Shl(a, 24), Shl(b, 16)), Shl(c, 8)), d);
    OrZeroIff(Or(Shl(a, 24), Shl(b, 16)), Shl(c, 8));
    OrZeroIff(Shl(a, 24), Shl(b, 16));
    ShlZeroIff(a, 24);
    ShlZeroIff(b, 16);
    ShlZeroIff(c, 8);
  }

  /** `localhost` with a dotted mask makes the constructor raise. */
  lemma LocalhostDottedMaskRaises(s: string, deny: bool, maskText: string)
    requires Spells(s, RuleParts(deny, "localhost", Some(maskText))) && IsDottedQuad(maskText)
    ensures ParseRule(s) == Err(TypeError)
  {
    ParseSpelled(s, RuleParts(deny, "localhost", Some(maskText)));
  }

  /** The constructor as evidently intended: a dotted mask is read from its own
      groups, also after `localhost`. */
  function InterpretIntended(s: string, p: RuleParts): ACLRule
    requires WellFormed(p)
  {
    var addr := if p.addrText == "localhost" then Localhost else DottedValue(p.addrText);
    match p.maskText
    case None => Valid(s, p.deny, addr, 0)
    case Some(m) => Valid(s, p.deny, addr, if IsDottedQuad(m) then DottedValue(m) else DigitsValue(m))
  }

  /** `ACLRule(rule_str)` with the dotted mask read as intended. */
  function ParseRuleIntended(s: string): ACLRule
  {
    var p := Decompose(AnchorBody(s));
    if WellFormed(p) then InterpretIntended(s, p) else Invalid(s)
  }

  /** Read as intended, a dotted mask is the value of the mask text, for a dotted
      address and for `localhost` alike. */
  lemma IntendedDottedMask(s: string, p: RuleParts)
    requires Spells(s, p) && p.maskText.Some? && IsDottedQuad(p.maskText.value)
    ensures ParseRuleIntended(s) ==
      Valid(s, p.deny, if p.addrText == "localhost" then Localhost else DottedValue(p.addrText),
            DottedValue(p.maskText.value))
  {
    DecomposeAssemble(p);
  }

  /** The two readings of a rule string differ only where a dotted mask is given. */
  lemma IntendedAgreesWithoutDottedMask(s: string)
    ensures (forall p :: Spells(s, p) ==> p.maskText.None? || !IsDottedQuad(p.maskText.value)) ==>
            ParseRule(s) == Ok(ParseRuleIntended(s))
  {
    if exists p :: Spells(s, p) {
      var p :| Spells(s, p);
      DecomposeAssemble(p);
    }
  }

  /** `is_client_denied`, specified recursively: the first rule whose `match` does not
      answer False decides; when no rule matches the client is allowed. */
  function Verdict(acl: seq<ACLRule>, client: string): Result<bool, MatchError>
  {
    if acl == [] then Ok(false)
    else match Match(acl[0], client)
      case Err(e) => Err(e)
      case Ok(true) => Ok(acl[0].deny)
      case Ok(false) => Verdict(acl[1..], client)
  }

  /** Rule `i` is the first whose `match` does not answer False. */
  predicate DecidesAt(acl: seq<ACLRule>, client: string, i: int)
  {
    && 0 <= i < |acl|
    && Match(acl[i], client) != Ok(false)
    && forall j :: 0 <= j < i ==> Match(acl[j], client) == Ok(false)
  }

  /** What the deciding rule answers: its deny flag, or the error its `match` raises. */
  function Decision(rule: ACLRule, client: string): Result<bool, MatchError>
    requires Match(rule, client) != Ok(false)
  {
    if Match(rule, client).Err? then Err(AttributeError) else Ok(rule.deny)
  }

  /** First match wins: the verdict is the deciding rule's decision, and `False` (allow)
      when no rule matches. */
  lemma {:induction false} VerdictFirstMatch(acl: seq<ACLRule>, client: string)
    ensures (forall j :: 0 <= j < |acl| ==> Match(acl[j], client) == Ok(false)) ==>
            Verdict(acl, client) == Ok(false)
    ensures forall i :: DecidesAt(acl, client, i) ==> Verdict(acl, client) == Decision(acl[i], client)
  {
    if acl != [] {
      VerdictFirstMatch(acl[1..], client);
      forall i | DecidesAt(acl, client, i) ensures Verdict(acl, client) == Decision(acl[i], client) {
        if i > 0 {
          assert DecidesAt(acl[1..], client, i - 1);
        }
      }
      if forall j :: 0 <= j < |acl| ==> Match(acl[j], client) == Ok(false) {
        assert Match(acl[0], client) == Ok(false);
        assert forall j :: 0 <= j < |acl| - 1 ==> acl[1..][j] == acl[j + 1];
      }
    }
  }

  /** Rules placed after a deciding prefix are never consulted. */
  lemma {:induction false} VerdictPrefixDecides(pre: seq<ACLRule>, post: seq<ACLRule>, client: string)
    requires exists i :: DecidesAt(pre, client, i)
    ensures Verdict(pre + post, client) == Verdict(pre, client)
  {
    var i :| DecidesAt(pre, client, i);
    VerdictFirstMatch(pre, client);
    VerdictFirstMatch(pre + post, client);
    assert DecidesAt(pre + post, client, i) by {
      forall j | 0 <= j <= i ensures (pre + post)[j] == pre[j] {
      }
    }
  }

  /** `is_client_denied(client_addr)`: the loop over the rules in list order. */
  method IsClientDenied(acl: seq<ACLRule>, client: string) returns (r: Result<bool, MatchError>)
    ensures r == Verdict(acl, client)
  {
    var i := 0;
    while i < |acl|
      invariant 0 <= i <= |acl|
      invariant Verdict(acl, client) == Verdict(acl[i..], client)
    {
      assert acl[i..][1..] == acl[i + 1..];
      var m := Match(acl[i], client);
      if m.Err? {
        return Err(m.error);
      }
      if m.value {
        return Ok(acl[i].deny);
      }
      i := i + 1;
    }
    return Ok(false);
  }

  /** A dotted-quad rule without a mask clause has mask 0. */
  lemma UnmaskedRule(s: string, p: RuleParts)
    requires Spells(s, p) && p.maskText.None? && p.addrText != "localhost"
    ensures IsDottedQuad(p.addrText)
    ensures ParseRule(s) == Ok(Valid(s, p.deny, DottedValue(p.addrText), 0))
  {
    ParseSpelled(s, p);
  }

  /** First match wins, so the order of the rules matters: the same address listed as
      a deny rule and as an allow rule is denied or allowed by whichever comes first. */
  lemma OrderDecides(addrText: string, client: string)
    requires IsDottedQuad(addrText) && IsClientQuad(client)
    requires ClientValue(client) == DottedValue(addrText)
    ensures ParseRule("d" + addrText).Ok? && ParseRule(addrText).Ok?
    ensures Verdict([ParseRule("d" + addrText).value, ParseRule(addrText).value], client) == Ok(true)
    ensures Verdict([ParseRule(addrText).value, ParseRule("d" + addrText).value], client) == Ok(false)
  {
    var n := DottedValue(addrText);
    var denyRule := Valid("d" + addrText, true, n, 0);
    var allowRule := Valid(addrText, false, n, 0);
    ParsePlainPair(addrText);
    UnmaskedMatches(denyRule, client);
    UnmaskedMatches(allowRule, client);
    FirstOfTwo(denyRule, allowRule, client);
    FirstOfTwo(allowRule, denyRule, client);
  }

  /** A dotted quad, with and without the deny marker, parses to an unmasked rule. */
  lemma ParsePlainPair(addrText: string)
    requires IsDottedQuad(addrText)
    ensures ParseRule("d" + addrText) == Ok(Valid("d" + addrText, true, DottedValue(addrText), 0))
    ensures ParseRule(addrText) == Ok(Valid(addrText, false, DottedValue(addrText), 0))
  {
    AnchorBodyPlain("d" + addrText, addrText);
    DottedQuadShape(addrText);
    assert addrText != "localhost";
    var pd := RuleParts(true, addrText, None);
    var pa := RuleParts(false, addrText, None);
    assert Assemble(pd) == "d" + addrText;
    assert Assemble(pa) == addrText;
    UnmaskedRule("d" + addrText, pd);
    UnmaskedRule(addrText, pa);
  }

  /** An unmasked rule matches the client of its own address. */
  lemma UnmaskedMatches(rule: ACLRule, client: string)
    requires rule.Valid? && rule.mask == 0 && IsClientQuad(client) && ClientValue(client) == rule.addr
    ensures Match(rule, client) == Ok(true)
  {
    MatchMeaning(rule, client);
    XorZeroRight(rule.addr);
  }

  lemma FirstOfTwo(first: ACLRule, second: ACLRule, client: string)
    requires first.Valid? && Match(first, client) == Ok(true)
    ensures Verdict([first, second], client) == Ok(first.deny)
  {
  }

  /** A string ending in a digit is not changed by `AnchorBody`. */
  lemma AnchorBodyPlain(s: string, addrText: string)
    requires IsDottedQuad(addrText) && s == "d" + addrText
    ensures AnchorBody(s) == s && AnchorBody(addrText) == addrText
  {
    var p := Split(addrText, '.');
    JoinSplit(addrText, '.');
    LastOfJoin(p, '.');
    assert IsDigits(p[3]);
    assert addrText[|addrText| - 1] == p[3][|p[3]| - 1];
  }

  lemma {:induction false} LastOfJoin(parts: seq<string>, c: char)
    requires |parts| >= 1 && parts[|parts| - 1] != ""
    ensures var s := JoinWith(parts, c);
      |s| >= |parts[|parts| - 1]| && s[|s| - 1] == parts[|parts| - 1][|parts[|parts| - 1]| - 1]
  {
    if |parts| > 1 {
      LastOfJoin(parts[1..], c);
    }
  }

  /** With every number below 256 the bitwise combination is the usual base-256 value. */
  lemma QuadValueSum(a: nat, b: nat, c: nat, d: nat)
    requires a < 256 && b < 256 && c < 256 && d < 256
    ensures QuadValue(a, b, c, d) == ((a * 256 + b) * 256 + c) * 256 + d
  {
    assert Pow2(8) == 256;
    assert Pow2(16) == 65536;
    assert Pow2(24) == 16777216;
    OrShiftedAdd(a, 24, b * 65536);
    var ab := Shl(a, 24) + Shl(b, 16);
    assert ab == Shl(a * 256 + b, 16);
    OrShiftedAdd(a * 256 + b, 16, c * 256);
    var abc := ab + Shl(c, 8);
    assert abc == Shl((a * 256 + b) * 256 + c, 8);
    OrShiftedAdd((a * 256 + b) * 256 + c, 8, d);
  }

  lemma Base256Digit(x: nat, d: nat, y: nat, e: nat)
    requires d < 256 && e < 256
    requires x * 256 + d == y * 256 + e
    ensures x == y && d == e
  {
  }

  /** Within the usual octet range, different addresses have different values. */
  lemma QuadValueInjective(a: nat, b: nat, c: nat, d: nat, a': nat, b': nat, c': nat, d': nat)
    requires a < 256 && b < 256 && c < 256 && d < 256
    requires a' < 256 && b' < 256 && c' < 256 && d' < 256
    requires QuadValue(a, b, c, d) == QuadValue(a', b', c', d')
    ensures a == a' && b == b' && c == c' && d == d'
  {
    QuadValueSum(a, b, c, d);
    QuadValueSum(a', b', c', d');
    Base256Digit((a * 256 + b) * 256 + c, d, (a' * 256 + b') * 256 + c', d');
    Base256Digit(a * 256 + b, c, a' * 256 + b', c');
    Base256Digit(a, b, a', b');
  }
}
