/** `rule_from_string`: a birth or survival rule written as digits ("23") becomes a
    9-slot table indexed by live-neighbour count (src/automata.rs:119-132). */
module Rules {
  import opened Wrappers
  import opened RowMajor
  import opened Decimal

  /** Rust's `[u8; 9]`. */
  type Rule = r: seq<u8> | |r| == 9 witness [0, 0, 0, 0, 0, 0, 0, 0, 0]

  /** Why a rule string is refused, and at which character. Each is a panic in
      the source: a failed `parse`, an index past the 9-slot table, or the
      explicit "Incorrect rule" panic. */
  datatype RuleError =
    | NotADigit(pos: nat)
    | DigitOutOfRange(pos: nat)
    | DuplicateDigit(pos: nat)
  {
    function Pos(): nat {
      match this
      case NotADigit(p) => p
      case DigitOutOfRange(p) => p
      case DuplicateDigit(p) => p
    }
  }

  /** A digit that indexes the table: 0 to 8. */
  predicate IsRuleDigit(c: char) {
    '0' <= c <= '8'
  }

  /** A rule string the source accepts: only digits 0-8, none twice. */
  predicate WellFormedRule(s: string) {
    && (forall i | 0 <= i < |s| :: IsRuleDigit(s[i]))
    && (forall i, j | 0 <= i < j < |s| :: s[i] != s[j])
  }

  /** The table a string denotes: slot d is 1 exactly when digit d occurs. */
  function RuleTable(s: string): (r: Rule)
    ensures IsBinary(r)
  {
    seq(9, d requires 0 <= d < 9 => if DigitChar(d) in s then 1 else 0)
  }

  /** The error reported for character p, given that everything before it was
      accepted. */
  function ErrorAt(s: string, p: nat): RuleError
    requires p < |s|
  {
    if !IsDigit(s[p]) then NotADigit(p)
    else if s[p] == '9' then DigitOutOfRange(p)
    else DuplicateDigit(p)
  }

  /** Parse a rule string left to right into a fresh 9-slot table. The first
      offending character decides the error. */
  method RuleFromString(s: string) returns (r: Result<Rule, RuleError>)
    ensures r.Ok? <==> WellFormedRule(s)
    ensures r.Ok? ==> r.value == RuleTable(s)
    ensures r.Err? ==>
      var p := r.error.Pos();
      && p < |s|
      && WellFormedRule(s[..p])
      && !WellFormedRule(s[..p + 1])
      && r.error == ErrorAt(s, p)
  {
    var rule := new u8[9](_ => 0);
    for i := 0 to |s|
      invariant rule[..] == RuleTable(s[..i])
      invariant WellFormedRule(s[..i])
    {
      assert s[..i + 1] == s[..i] + [s[i]];
      if !IsDigit(s[i]) {
        return Err(NotADigit(i));
      }
      var d := DigitValue(s[i]);
      DigitCharValue(s[i]);
      if d >= 9 {
        return Err(DigitOutOfRange(i));
      }
      if rule[d] == 0 {
        rule[d] := 1;
      } else {
        return Err(DuplicateDigit(i));
      }
    }
    assert s[..|s|] == s;
    r := Ok(rule[..]);
  }

  /** Sum of a table's entries. */
  function Total(r: seq<u8>): nat {
    if r == [] then 0 else Total(r[..|r| - 1]) + r[|r| - 1]
  }

  lemma {:induction false} TotalSetOne(r: seq<u8>, d: nat)
    requires d < |r| && r[d] == 0
    ensures Total(r[d := 1]) == Total(r) + 1
    decreases |r|
  {
    var n := |r|;
    assert r[d := 1][..n - 1] == if d < n - 1 then r[..n - 1][d := 1] else r[..n - 1];
    if d < n - 1 {
      TotalSetOne(r[..n - 1], d);
    }
  }

  lemma {:induction false} TotalZero(r: seq<u8>)
    requires forall d | 0 <= d < |r| :: r[d] == 0
    ensures Total(r) == 0
    decreases |r|
  {
    if r != [] {
      TotalZero(r[..|r| - 1]);
    }
  }

  /** Every digit of a well-formed rule string sets its own slot: the table
      holds exactly as many 1s as the string has characters. */
  lemma {:induction false} RuleTableCountsDigits(s: string)
    requires WellFormedRule(s)
    ensures Total(RuleTable(s)) == |s|
    decreases |s|
  {
    if s == [] {
      TotalZero(RuleTable(s));
    } else {
      var t, c := s[..|s| - 1], s[|s| - 1];
      assert s == t + [c];
      assert WellFormedRule(t);
      var d := DigitValue(c);
      DigitCharValue(c);
      assert c !in t;
      assert RuleTable(s) == RuleTable(t)[d := 1];
      RuleTableCountsDigits(t);
      TotalSetOne(RuleTable(t), d);
    }
  }

  /** The slots set in the table are exactly the digits of the string. */
  lemma RuleTableDigits(s: string)
    requires WellFormedRule(s)
    ensures (set d | 0 <= d < 9 && RuleTable(s)[d] == 1) == (set i | 0 <= i < |s| :: DigitValue(s[i]))
  {
    forall i | 0 <= i < |s|
      ensures RuleTable(s)[DigitValue(s[i])] == 1
    {
      DigitCharValue(s[i]);
    }
  }

  /** The empty rule never fires. */
  lemma EmptyRule()
    ensures WellFormedRule("")
    ensures RuleTable("") == [0, 0, 0, 0, 0, 0, 0, 0, 0]
  {
  }

  /** A string that repeats a digit is never accepted. */
  lemma RepeatedDigitRejected(s: string, i: nat, j: nat)
    requires i < j < |s| && s[i] == s[j]
    ensures !WellFormedRule(s)
  {
  }

  /** The default rules "3" and "23" (Conway's Life, B3/S23). */
  lemma ConwayRules()
    ensures WellFormedRule("3") && RuleTable("3") == [0, 0, 0, 1, 0, 0, 0, 0, 0]
    ensures WellFormedRule("23") && RuleTable("23") == [0, 0, 1, 1, 0, 0, 0, 0, 0]
  {
  }
}
