/** The regex builder of lexer/regexToNFA.h: a shunting-yard translation to
    postfix followed by a Thompson construction over a stack of fragments.
    The builder is modelled as written: an implicit concatenation `.` goes
    straight into the output instead of through the operator stack, so
    juxtaposed operands do not concatenate, and the build rejects them. */
module RegexToNFA {
  import opened Ordered
  import opened Automata

  /** The exits of the builder: an unmatched ')' (whose pop on an empty
      stack the source leaves undefined), an operator short of operands, and
      a final stack that does not hold exactly one fragment. */
  datatype RegexError = UnmatchedCloseParen | MissingOperands(op: char) | MalformedExpression

  datatype Result<T> = Ok(value: T) | Err(error: RegexError)

  // ---------------------------------------------------------------------
  // Characters

  /** Only ASCII letters are literals. */
  predicate IsAlpha(c: char)
  {
    ('a' <= c <= 'z') || ('A' <= c <= 'Z')
  }

  /** The ASCII letters, listed one by one. */
  const LOWER_LETTERS := "abcdefghijklmnopqrstuvwxyz"
  const UPPER_LETTERS := "ABCDEFGHIJKLMNOPQRSTUVWXYZ"

  /** The listed lower-case letters are exactly the characters 'a'..'z'. */
  lemma LowerLettersRange(c: char)
    ensures c in LOWER_LETTERS <==> 'a' <= c <= 'z'
  {
    forall k | 0 <= k < |LOWER_LETTERS|
      ensures LOWER_LETTERS[k] as int == 'a' as int + k
    {
    }
    if 'a' <= c <= 'z' {
      assert LOWER_LETTERS[c as int - 'a' as int] == c;
    }
  }

  /** The listed upper-case letters are exactly the characters 'A'..'Z'. */
  lemma UpperLettersRange(c: char)
    ensures c in UPPER_LETTERS <==> 'A' <= c <= 'Z'
  {
    forall k | 0 <= k < |UPPER_LETTERS|
      ensures UPPER_LETTERS[k] as int == 'A' as int + k
    {
    }
    if 'A' <= c <= 'Z' {
      assert UPPER_LETTERS[c as int - 'A' as int] == c;
    }
  }

  /** The literals are exactly the 52 ASCII letters: digits, '_' and
      non-ASCII letters are not. */
  lemma LiteralsAreLetters(c: char)
    ensures IsAlpha(c) <==> c in LOWER_LETTERS || c in UPPER_LETTERS
    ensures '0' <= c <= '9' || c == '_' ==> !IsAlpha(c)
  {
    LowerLettersRange(c);
    UpperLettersRange(c);
  }

  /** Binding strength of an operator: star over concatenation over
      alternation; every other character, '(' included, ranks lowest. */
  function Precedence(op: char): (r: int)
    ensures 0 <= r <= 3
    ensures r == 0 <==> op !in "*.|"
  {
    if op == '*' then 3
    else if op == '.' then 2
    else if op == '|' then 1
    else 0
  }

  lemma PrecedenceOrder()
    ensures Precedence('(') < Precedence('|') < Precedence('.') < Precedence('*')
  {
  }

  // ---------------------------------------------------------------------
  // Infix to postfix, the reference the scanning method is proved against

  /** A stack's contents from the top (its last element) down. */
  function Reverse(s: string): (r: string)
    ensures |r| == |s|
    ensures forall i | 0 <= i < |s| :: r[i] == s[|s| - 1 - i]
  {
    if s == [] then [] else [s[|s| - 1]] + Reverse(s[..|s| - 1])
  }

  /** Popping the top of a stack first, then the part above index `k`. */
  lemma ReverseTop(ops: string, k: int)
    requires 0 <= k < |ops|
    ensures Reverse(ops[k..]) == [ops[|ops| - 1]] + Reverse(ops[..|ops| - 1][k..])
  {
    assert ops[..|ops| - 1][k..] == ops[k..][..|ops| - k - 1];
  }

  /** The `.` written after a letter or ')' when a letter or '(' follows. */
  function ConcatMark(regex: string, i: nat): string
    requires i < |regex|
  {
    if i + 1 < |regex| && (IsAlpha(regex[i + 1]) || regex[i + 1] == '(') then "." else ""
  }

  /** Moves operators from the top of the stack (its last element) to the
      output until '(' is on top or the stack is empty. */
  function PopToOpen(postfix: string, ops: string): (r: (string, string))
    ensures |r.1| <= |ops| && r.1 == ops[..|r.1|]
    ensures r.1 == [] || r.1[|r.1| - 1] == '('
    ensures forall j | |r.1| <= j < |ops| :: ops[j] != '('
    decreases |ops|
  {
    if ops == [] || ops[|ops| - 1] == '(' then (postfix, ops)
    else PopToOpen(postfix + [ops[|ops| - 1]], ops[..|ops| - 1])
  }

  /** The operators popped to '(' reach the output top first. */
  lemma {:induction false} PopToOpenOutput(postfix: string, ops: string)
    ensures var r := PopToOpen(postfix, ops); r.0 == postfix + Reverse(ops[|r.1|..])
    decreases |ops|
  {
    if ops != [] && ops[|ops| - 1] != '(' {
      var top := ops[|ops| - 1];
      var r := PopToOpen(postfix + [top], ops[..|ops| - 1]);
      assert PopToOpen(postfix, ops) == r;
      PopToOpenOutput(postfix + [top], ops[..|ops| - 1]);
      ReverseTop(ops, |r.1|);
    } else {
      assert ops[|ops|..] == [];
    }
  }

  /** Moves every operator of greater or equal precedence than `c` from the
      top of the stack to the output. */
  function PopForOperator(postfix: string, ops: string, c: char): (r: (string, string))
    ensures |r.1| <= |ops| && r.1 == ops[..|r.1|]
    ensures r.1 == [] || Precedence(r.1[|r.1| - 1]) < Precedence(c)
    ensures forall j | |r.1| <= j < |ops| :: Precedence(ops[j]) >= Precedence(c)
    decreases |ops|
  {
    if ops == [] || Precedence(ops[|ops| - 1]) < Precedence(c) then (postfix, ops)
    else PopForOperator(postfix + [ops[|ops| - 1]], ops[..|ops| - 1], c)
  }

  /** The operators popped for `c` reach the output top first. */
  lemma {:induction false} PopForOperatorOutput(postfix: string, ops: string, c: char)
    ensures var r := PopForOperator(postfix, ops, c); r.0 == postfix + Reverse(ops[|r.1|..])
    decreases |ops|
  {
    if ops != [] && Precedence(ops[|ops| - 1]) >= Precedence(c) {
      var top := ops[|ops| - 1];
      var r := PopForOperator(postfix + [top], ops[..|ops| - 1], c);
      assert PopForOperator(postfix, ops, c) == r;
      PopForOperatorOutput(postfix + [top], ops[..|ops| - 1], c);
      ReverseTop(ops, |r.1|);
    } else {
      assert ops[|ops|..] == [];
    }
  }

  /** Reading the character at `i`: a new output and operator stack, or the
      unmatched-')' exit. */
  function Step(regex: string, i: nat, postfix: string, ops: string): Result<(string, string)>
    requires i < |regex|
  {
    var c := regex[i];
    if IsAlpha(c) then Ok((postfix + [c] + ConcatMark(regex, i), ops))
    else if c == '(' then Ok((postfix, ops + [c]))
    else if c == ')' then
      var (out, rest) := PopToOpen(postfix, ops);
      if rest == [] then Err(UnmatchedCloseParen)
      else Ok((out + ConcatMark(regex, i), rest[..|rest| - 1]))
    else
      var (out, rest) := PopForOperator(postfix, ops, c);
      Ok((out, rest + [c]))
  }

  /** The translation from position `i` on, given the output so far and the
      operator stack; what is left on the stack is flushed at the end. */
  function Scan(regex: string, i: nat, postfix: string, ops: string): Result<string>
    requires i <= |regex|
    decreases |regex| - i
  {
    if i == |regex| then Ok(postfix + Reverse(ops))
    else match Step(regex, i, postfix, ops)
      case Err(e) => Err(e)
      case Ok((postfix', ops')) => Scan(regex, i + 1, postfix', ops')
  }

  function Postfix(regex: string): Result<string>
  {
    Scan(regex, 0, "", "")
  }

  method InfixToPostfix(regex: string) returns (r: Result<string>)
    ensures r == Postfix(regex)
  {
    var postfix := "";
    var operators := "";
    var i := 0;
    while i < |regex|
      invariant i <= |regex|
      invariant Scan(regex, i, postfix, operators) == Postfix(regex)
    {
      var c := regex[i];
      ghost var postfix0, operators0 := postfix, operators;
      if IsAlpha(c) {
        postfix := postfix + [c];
        if i + 1 < |regex| && (IsAlpha(regex[i + 1]) || regex[i + 1] == '(') {
          postfix := postfix + ".";
        }
        assert postfix == postfix0 + [c] + ConcatMark(regex, i);
        assert Step(regex, i, postfix0, operators0) == Ok((postfix, operators));
      } else if c == '(' {
        operators := operators + [c];
      } else if c == ')' {
        while operators != [] && operators[|operators| - 1] != '('
          invariant PopToOpen(postfix, operators) == PopToOpen(postfix0, operators0)
          decreases |operators|
        {
          postfix := postfix + [operators[|operators| - 1]];
          operators := operators[..|operators| - 1];
        }
        assert PopToOpen(postfix0, operators0) == (postfix, operators);
        ghost var out, rest := postfix, operators;
        if operators == [] {
          assert Step(regex, i, postfix0, operators0) == Err(UnmatchedCloseParen);
          return Err(UnmatchedCloseParen);
        }
        operators := operators[..|operators| - 1];
        if i + 1 < |regex| && (IsAlpha(regex[i + 1]) || regex[i + 1] == '(') {
          postfix := postfix + ".";
        }
        assert postfix == out + ConcatMark(regex, i) && operators == rest[..|rest| - 1];
        assert Step(regex, i, postfix0, operators0) == Ok((postfix, operators));
      } else {
        while operators != [] && Precedence(operators[|operators| - 1]) >= Precedence(c)
          invariant PopForOperator(postfix, operators, c) == PopForOperator(postfix0, operators0, c)
          decreases |operators|
        {
          postfix := postfix + [operators[|operators| - 1]];
          operators := operators[..|operators| - 1];
        }
        assert PopForOperator(postfix0, operators0, c) == (postfix, operators);
        operators := operators + [c];
        assert Step(regex, i, postfix0, operators0) == Ok((postfix, operators));
      }
      i := i + 1;
    }
    ghost var final := postfix + Reverse(operators);
    assert Scan(regex, i, postfix, operators) == Ok(final);
    while operators != []
      invariant postfix + Reverse(operators) == final
      decreases |operators|
    {
      postfix := postfix + [operators[|operators| - 1]];
      operators := operators[..|operators| - 1];
    }
    assert Reverse(operators) == [];
    assert postfix == final;
    assert Ok(final) == Postfix(regex);
    r := Ok(postfix);
  }

  // ---------------------------------------------------------------------
  // What the translation keeps

  /** The letters of a string, in order. */
  function Letters(s: string): string
  {
    if s == [] then []
    else if IsAlpha(s[|s| - 1]) then Letters(s[..|s| - 1]) + [s[|s| - 1]]
    else Letters(s[..|s| - 1])
  }

  lemma {:induction false} LettersAppend(a: string, b: string)
    ensures Letters(a + b) == Letters(a) + Letters(b)
    decreases |b|
  {
    if b == [] {
      assert a + b == a;
    } else {
      assert (a + b)[..|a + b| - 1] == a + b[..|b| - 1];
      LettersAppend(a, b[..|b| - 1]);
    }
  }

  /** What the operator stack can hold: no letters and no ')'. */
  predicate OperatorsOnly(s: string)
  {
    forall c | c in s :: !IsAlpha(c) && c != ')'
  }

  lemma {:induction false} FlushKeeps(postfix: string, ops: string)
    requires OperatorsOnly(ops)
    ensures Letters(postfix + Reverse(ops)) == Letters(postfix)
    ensures ')' !in postfix ==> ')' !in postfix + Reverse(ops)
    decreases |ops|
  {
    if ops != [] {
      var top := ops[|ops| - 1];
      assert top in ops;
      assert Reverse(ops) == [top] + Reverse(ops[..|ops| - 1]);
      assert postfix + Reverse(ops) == (postfix + [top]) + Reverse(ops[..|ops| - 1]);
      LettersAppend(postfix, [top]);
      assert ')' !in postfix ==> ')' !in postfix + [top];
      FlushKeeps(postfix + [top], ops[..|ops| - 1]);
    } else {
      assert postfix + Reverse(ops) == postfix;
    }
  }

  /** Popping to '(' moves operators only. */
  lemma {:induction false} PopToOpenKeeps(postfix: string, ops: string)
    requires OperatorsOnly(ops)
    ensures OperatorsOnly(PopToOpen(postfix, ops).1)
    ensures Letters(PopToOpen(postfix, ops).0) == Letters(postfix)
    ensures ')' !in postfix ==> ')' !in PopToOpen(postfix, ops).0
    decreases |ops|
  {
    if ops != [] && ops[|ops| - 1] != '(' {
      var top := ops[|ops| - 1];
      assert top in ops;
      LettersAppend(postfix, [top]);
      PopToOpenKeeps(postfix + [top], ops[..|ops| - 1]);
    }
  }

  /** Popping for an operator moves operators only. */
  lemma {:induction false} PopForOperatorKeeps(postfix: string, ops: string, c: char)
    requires OperatorsOnly(ops)
    ensures OperatorsOnly(PopForOperator(postfix, ops, c).1)
    ensures Letters(PopForOperator(postfix, ops, c).0) == Letters(postfix)
    ensures ')' !in postfix ==> ')' !in PopForOperator(postfix, ops, c).0
    decreases |ops|
  {
    if ops != [] && Precedence(ops[|ops| - 1]) >= Precedence(c) {
      var top := ops[|ops| - 1];
      assert top in ops;
      LettersAppend(postfix, [top]);
      PopForOperatorKeeps(postfix + [top], ops[..|ops| - 1], c);
    }
  }

  /** One step keeps the stack free of letters and ')', and adds to the
      output the letters of the character read and no ')'. */
  lemma StepKeeps(regex: string, i: nat, postfix: string, ops: string)
    requires i < |regex| && OperatorsOnly(ops)
    ensures Step(regex, i, postfix, ops).Ok? ==> OperatorsOnly(Step(regex, i, postfix, ops).value.1)
    ensures Step(regex, i, postfix, ops).Ok? ==>
              Letters(Step(regex, i, postfix, ops).value.0) == Letters(postfix) + Letters([regex[i]])
    ensures Step(regex, i, postfix, ops).Ok? && ')' !in postfix ==> ')' !in Step(regex, i, postfix, ops).value.0
  {
    var c := regex[i];
    if IsAlpha(c) {
      LettersAppend(postfix, [c]);
      LettersAppend(postfix + [c], ConcatMark(regex, i));
    } else if c == '(' {
      assert OperatorsOnly(ops + [c]);
    } else if c == ')' {
      PopToOpenKeeps(postfix, ops);
      var (out, rest) := PopToOpen(postfix, ops);
      LettersAppend(out, ConcatMark(regex, i));
      if rest != [] {
        assert OperatorsOnly(rest[..|rest| - 1]) by {
          forall x | x in rest[..|rest| - 1] ensures x in rest { }
        }
      }
    } else {
      PopForOperatorKeeps(postfix, ops, c);
      var (out, rest) := PopForOperator(postfix, ops, c);
      assert OperatorsOnly(rest + [c]);
    }
  }

  lemma {:induction false} ScanKeepsLetters(regex: string, i: nat, postfix: string, ops: string)
    requires i <= |regex| && OperatorsOnly(ops)
    ensures Scan(regex, i, postfix, ops).Ok? ==>
              Letters(Scan(regex, i, postfix, ops).value) == Letters(postfix) + Letters(regex[i..])
    decreases |regex| - i
  {
    if i == |regex| {
      FlushKeeps(postfix, ops);
      assert regex[i..] == [];
    } else if Scan(regex, i, postfix, ops).Ok? {
      StepKeeps(regex, i, postfix, ops);
      var next := Step(regex, i, postfix, ops).value;
      assert Scan(regex, i, postfix, ops) == Scan(regex, i + 1, next.0, next.1);
      ScanKeepsLetters(regex, i + 1, next.0, next.1);
      LettersHead(regex, i);
      assert Letters(next.0) + Letters(regex[i + 1..])
          == Letters(postfix) + (Letters([regex[i]]) + Letters(regex[i + 1..]));
    }
  }

  lemma LettersHead(regex: string, i: nat)
    requires i < |regex|
    ensures Letters(regex[i..]) == Letters([regex[i]]) + Letters(regex[i + 1..])
  {
    assert regex[i..] == [regex[i]] + regex[i + 1..];
    LettersAppend([regex[i]], regex[i + 1..]);
  }

  lemma {:induction false} ScanNoCloseParen(regex: string, i: nat, postfix: string, ops: string)
    requires i <= |regex| && OperatorsOnly(ops) && ')' !in postfix
    ensures Scan(regex, i, postfix, ops).Ok? ==> ')' !in Scan(regex, i, postfix, ops).value
    decreases |regex| - i
  {
    if i == |regex| {
      FlushKeeps(postfix, ops);
    } else if Scan(regex, i, postfix, ops).Ok? {
      StepKeeps(regex, i, postfix, ops);
      var (postfix', ops') := Step(regex, i, postfix, ops).value;
      ScanNoCloseParen(regex, i + 1, postfix', ops');
    }
  }

  /** The translation keeps the input's letters in their order and never
      writes a ')'. */
  lemma PostfixKeepsLetters(regex: string)
    ensures Postfix(regex).Ok? ==> Letters(Postfix(regex).value) == Letters(regex)
    ensures Postfix(regex).Ok? ==> ')' !in Postfix(regex).value
  {
    ScanKeepsLetters(regex, 0, "", "");
    ScanNoCloseParen(regex, 0, "", "");
    assert regex[0..] == regex;
  }

  /** Juxtaposed letters get a `.` written between them instead of after
      them. */
  lemma PostfixJuxtaposed()
    ensures Postfix("ab") == Ok("a.b")
  {
    assert "ab"[0] == 'a' && IsAlpha('a') && IsAlpha('b');
    assert ConcatMark("ab", 0) == "." && ConcatMark("ab", 1) == "";
    assert "" + ['a'] + "." == "a." && "a." + ['b'] + "" == "a.b";
    assert Scan("ab", 0, "", "") == Scan("ab", 1, "a.", "");
    assert Scan("ab", 1, "a.", "") == Scan("ab", 2, "a.b", "");
    assert Reverse("") == "" && "a.b" + "" == "a.b";
  }

  /** A star is written after its operand, with no `.` before what follows. */
  lemma PostfixStar()
    ensures Postfix("a*b") == Ok("ab*")
  {
    assert IsAlpha('a') && IsAlpha('b') && !IsAlpha('*');
    assert ConcatMark("a*b", 0) == "" && ConcatMark("a*b", 2) == "";
    assert "" + ['a'] + "" == "a" && "a" + ['b'] + "" == "ab";
    assert Scan("a*b", 0, "", "") == Scan("a*b", 1, "a", "");
    assert Scan("a*b", 1, "a", "") == Scan("a*b", 2, "a", "*");
    assert Scan("a*b", 2, "a", "*") == Scan("a*b", 3, "ab", "*");
    assert Reverse("*") == "*" && "ab" + "*" == "ab*";
  }

  lemma PostfixUnion()
    ensures Postfix("a|b") == Ok("ab|")
  {
    assert IsAlpha('a') && IsAlpha('b') && !IsAlpha('|');
    assert ConcatMark("a|b", 0) == "" && ConcatMark("a|b", 2) == "";
    assert "" + ['a'] + "" == "a" && "a" + ['b'] + "" == "ab";
    assert Scan("a|b", 0, "", "") == Scan("a|b", 1, "a", "");
    assert Scan("a|b", 1, "a", "") == Scan("a|b", 2, "a", "|");
    assert Scan("a|b", 2, "a", "|") == Scan("a|b", 3, "ab", "|");
    assert Reverse("|") == "|" && "ab" + "|" == "ab|";
  }

  /** The scan of "(a|b)c" up to the ')'. */
  lemma GroupPrefix()
    ensures Scan("(a|b)c", 0, "", "") == Scan("(a|b)c", 4, "ab", "(|")
  {
    var r := "(a|b)c";
    assert !IsAlpha('(') && "" + ['('] == "(";
    assert Step(r, 0, "", "") == Ok(("", "("));
    assert ConcatMark(r, 1) == "" && "" + ['a'] + "" == "a";
    assert Step(r, 1, "", "(") == Ok(("a", "("));
    assert !IsAlpha('|') && PopForOperator("a", "(", '|') == ("a", "(") && "(" + ['|'] == "(|";
    assert Step(r, 2, "a", "(") == Ok(("a", "(|"));
    assert ConcatMark(r, 3) == "" && "a" + ['b'] + "" == "ab";
    assert Step(r, 3, "a", "(|") == Ok(("ab", "(|"));
  }

  /** The ')' of "(a|b)c" pops the `|`, drops the '(' and writes the `.`. */
  lemma GroupClose()
    ensures Step("(a|b)c", 4, "ab", "(|") == Ok(("ab|.", ""))
  {
    var r := "(a|b)c";
    assert "(|"[..1] == "(" && "ab" + ['|'] == "ab|";
    assert PopToOpen("ab|", "(") == ("ab|", "(");
    assert PopToOpen("ab", "(|") == ("ab|", "(");
    assert IsAlpha('c') && ConcatMark(r, 4) == ".";
    assert "ab|" + "." == "ab|." && "("[..0] == "";
  }

  /** The scan of "(a|b)c" from the ')' to the end. */
  lemma GroupTail()
    ensures Scan("(a|b)c", 4, "ab", "(|") == Ok("ab|.c")
  {
    var r := "(a|b)c";
    GroupClose();
    assert Scan(r, 4, "ab", "(|") == Scan(r, 5, "ab|.", "");
    assert ConcatMark(r, 5) == "" && "ab|." + ['c'] + "" == "ab|.c";
    assert Step(r, 5, "ab|.", "") == Ok(("ab|.c", ""));
    assert Scan(r, 5, "ab|.", "") == Scan(r, 6, "ab|.c", "");
    assert Reverse("") == "" && "ab|.c" + "" == "ab|.c";
  }

  /** A `.` written after ')' precedes the next operand instead of following it. */
  lemma PostfixGroupThenLetter()
    ensures Postfix("(a|b)c") == Ok("ab|.c")
  {
    GroupPrefix();
    GroupTail();
  }

  lemma PostfixUnmatchedClose()
    ensures Postfix(")") == Err(UnmatchedCloseParen)
  {
    assert PopToOpen("", "") == ("", "");
  }

  // ---------------------------------------------------------------------
  // Thompson construction over a stack of fragments

  /** One letter: `start --symbol--> start + 1`, accepting at `start + 1`. */
  function Literal(start: int, symbol: char): NFAFragment
  {
    NFAFragment(start, {start + 1}, map[(start, symbol) := {start + 1}])
  }

  /** Every source gets an EPSILON edge to every target, on top of what the
      table already holds (the loops that insert into
      `transitions[{state, EPSILON}]`). */
  function AddEpsilonEdges(t: NfaTable, sources: set<int>, targets: set<int>): NfaTable
  {
    map k | k in t.Keys + (set s | s in sources :: (s, EPSILON)) ::
      if k.1 == EPSILON && k.0 in sources then Dests(t, k) + targets else t[k]
  }

  /** `std::map::insert` of a range: entries of `m` whose key `t` already
      holds are discarded. */
  function MapInsert(t: NfaTable, m: NfaTable): NfaTable
  {
    map k | k in t.Keys + m.Keys :: if k in t then t[k] else m[k]
  }

  /** Alternation: a new start with EPSILON edges to both operands' starts,
      and their accept states linked by EPSILON to a new accept state. */
  function Union(left: NFAFragment, right: NFAFragment, start: int, end: int): NFAFragment
  {
    NFAFragment(start, {end}, MapInsert(MapInsert(UnionLinks(left, right, start, end), left.transitions), right.transitions))
  }

  /** The edges alternation adds before merging its operands: from the new
      start to both starts, and from every accept state of either operand to
      the new accept state (the two loops add the same target, so they are
      one pass over both accept sets; see `AddEpsilonEdgesTwice`). */
  function UnionLinks(left: NFAFragment, right: NFAFragment, start: int, end: int): NfaTable
  {
    var t := map[(start, EPSILON) := {left.startState, right.startState}];
    AddEpsilonEdges(t, left.acceptStates + right.acceptStates, {end})
  }

  /** Linking two source sets to the same targets one after the other is
      linking their union. */
  lemma AddEpsilonEdgesTwice(t: NfaTable, a: set<int>, b: set<int>, targets: set<int>)
    ensures AddEpsilonEdges(AddEpsilonEdges(t, a, targets), b, targets) == AddEpsilonEdges(t, a + b, targets)
  {
    var t1 := AddEpsilonEdges(t, a, targets);
    var lhs := AddEpsilonEdges(t1, b, targets);
    var rhs := AddEpsilonEdges(t, a + b, targets);
    forall k | k in rhs
      ensures k in lhs
    {
      if k !in t && k.0 in a {
        assert k in t1;
      }
    }
    assert lhs.Keys == rhs.Keys;
  }

  /** Concatenation: the left operand's accept states get an EPSILON edge to
      the right operand's start, and accept where the right one accepts. */
  function Concat(left: NFAFragment, right: NFAFragment): NFAFragment
  {
    var t := AddEpsilonEdges(left.transitions, left.acceptStates, {right.startState});
    NFAFragment(left.startState, right.acceptStates, MapInsert(t, right.transitions))
  }

  /** Kleene star: a new start and accept state, with EPSILON edges from the
      new start and from the old accept states to the old start and the new
      accept state. */
  function Star(f: NFAFragment, start: int, end: int): NFAFragment
  {
    var t := f.transitions[(start, EPSILON) := Dests(f.transitions, (start, EPSILON)) + {f.startState, end}];
    NFAFragment(start, {end}, AddEpsilonEdges(t, f.acceptStates, {f.startState, end}))
  }

  /** The builder's state: the fragment stack (top last) and the id counter. */
  datatype Builder = Builder(stack: seq<NFAFragment>, counter: int)

  /** Pops the top `m` fragments and pushes `f`, with the counter now at
      `counter'`. */
  function Reduce(b: Builder, m: nat, f: NFAFragment, counter': int): Builder
    requires m <= |b.stack|
  {
    Builder(b.stack[..|b.stack| - m] + [f], counter')
  }

  /** Reading one postfix symbol; characters that are neither letters nor
      `|`, `.`, `*` are skipped. */
  function BuildStep(b: Builder, symbol: char): Result<Builder>
  {
    var n := |b.stack|;
    var c := b.counter;
    if IsAlpha(symbol) then
      Ok(Reduce(b, 0, Literal(c, symbol), c + 2))
    else if symbol == '|' then
      if n < 2 then Err(MissingOperands('|'))
      else Ok(Reduce(b, 2, Union(b.stack[n - 2], b.stack[n - 1], c, c + 1), c + 2))
    else if symbol == '.' then
      if n < 2 then Err(MissingOperands('.'))
      else Ok(Reduce(b, 2, Concat(b.stack[n - 2], b.stack[n - 1]), c))
    else if symbol == '*' then
      if n < 1 then Err(MissingOperands('*'))
      else Ok(Reduce(b, 1, Star(b.stack[n - 1], c, c + 1), c + 2))
    else Ok(b)
  }

  function RunBuild(postfix: string, i: nat, b: Builder): Result<Builder>
    requires i <= |postfix|
    decreases |postfix| - i
  {
    if i == |postfix| then Ok(b)
    else match BuildStep(b, postfix[i])
      case Err(e) => Err(e)
      case Ok(b') => RunBuild(postfix, i + 1, b')
  }

  /** One step of `RunBuild`, for callers that hold the step's outcome. */
  lemma RunBuildUnfold(postfix: string, i: nat, b: Builder)
    requires i < |postfix|
    ensures BuildStep(b, postfix[i]).Err? ==> RunBuild(postfix, i, b) == Err(BuildStep(b, postfix[i]).error)
    ensures BuildStep(b, postfix[i]).Ok? ==> RunBuild(postfix, i, b) == RunBuild(postfix, i + 1, BuildStep(b, postfix[i]).value)
  {
  }

  /** The fragment the builder hands to the NFA constructor. */
  function BuildFragment(postfix: string): Result<NFAFragment>
  {
    match RunBuild(postfix, 0, Builder([], 0))
    case Err(e) => Err(e)
    case Ok(b) => if |b.stack| != 1 then Err(MalformedExpression) else Ok(b.stack[0])
  }

  /** The whole builder on a regex, as fragments. */
  function Compile(regex: string): Result<NFAFragment>
  {
    match Postfix(regex)
    case Err(e) => Err(e)
    case Ok(postfix) => BuildFragment(postfix)
  }

  lemma AddEpsilonEdgesStep(t: NfaTable, sources: set<int>, s: int, targets: set<int>)
    requires s !in sources
    ensures AddEpsilonEdges(t, sources + {s}, targets) ==
              var r := AddEpsilonEdges(t, sources, targets); r[(s, EPSILON) := Dests(r, (s, EPSILON)) + targets]
  {
    var r := AddEpsilonEdges(t, sources, targets);
    var lhs := AddEpsilonEdges(t, sources + {s}, targets);
    var rhs := r[(s, EPSILON) := Dests(r, (s, EPSILON)) + targets];
    forall k
      ensures k in lhs <==> k in rhs
    {
    }
  }

  /** Gives every source an EPSILON edge to every target, one source at a
      time. */
  method LinkAccepts(t: NfaTable, sources: set<int>, targets: set<int>) returns (r: NfaTable)
    ensures r == AddEpsilonEdges(t, sources, targets)
  {
    r := t;
    var rest := sources;
    assert AddEpsilonEdges(t, {}, targets) == t;
    while rest != {}
      invariant rest <= sources
      invariant r == AddEpsilonEdges(t, sources - rest, targets)
      decreases rest
    {
      var state := Pick(rest);
      AddEpsilonEdgesStep(t, sources - rest, state, targets);
      assert (sources - rest) + {state} == sources - (rest - {state});
      r := r[(state, EPSILON) := Dests(r, (state, EPSILON)) + targets];
      rest := rest - {state};
    }
    assert sources - rest == sources;
  }

  /** The `|` case's table: EPSILON edges from the new start to both
      operands' starts and from their accept states to the new accept state,
      then both operands' entries merged in. */
  method BuildUnion(left: NFAFragment, right: NFAFragment, start: int, end: int) returns (f: NFAFragment)
    ensures f == Union(left, right, start, end)
  {
    var t := map[(start, EPSILON) := {left.startState, right.startState}];
    t := LinkAccepts(t, left.acceptStates, {end});
    t := LinkAccepts(t, right.acceptStates, {end});
    AddEpsilonEdgesTwice(map[(start, EPSILON) := {left.startState, right.startState}], left.acceptStates, right.acceptStates, {end});
    t := MapInsert(MapInsert(t, left.transitions), right.transitions);
    f := NFAFragment(start, {end}, t);
  }

  /** The `.` case: `left` is updated in place and pushed back. */
  method BuildConcat(left: NFAFragment, right: NFAFragment) returns (f: NFAFragment)
    ensures f == Concat(left, right)
  {
    var t := LinkAccepts(left.transitions, left.acceptStates, {right.startState});
    f := left.(acceptStates := right.acceptStates, transitions := MapInsert(t, right.transitions));
  }

  /** The `*` case: the operand's table with the new start's and the accept
      states' EPSILON edges added. */
  method BuildStar(fragment: NFAFragment, start: int, end: int) returns (f: NFAFragment)
    ensures f == Star(fragment, start, end)
  {
    var t := fragment.transitions[(start, EPSILON) := Dests(fragment.transitions, (start, EPSILON)) + {fragment.startState, end}];
    t := LinkAccepts(t, fragment.acceptStates, {fragment.startState, end});
    f := NFAFragment(start, {end}, t);
  }

  /** Runs the builder over a postfix expression, keeping the fragment
      stack with its top last. */
  method BuildFragmentFromPostfix(postfix: string) returns (r: Result<NFAFragment>)
    ensures r == BuildFragment(postfix)
  {
    var stack: seq<NFAFragment> := [];
    var stateCounter := 0;
    var i := 0;
    while i < |postfix|
      invariant i <= |postfix|
      invariant RunBuild(postfix, i, Builder(stack, stateCounter)) == RunBuild(postfix, 0, Builder([], 0))
    {
      var symbol := postfix[i];
      ghost var b := Builder(stack, stateCounter);
      RunBuildUnfold(postfix, i, b);
      if IsAlpha(symbol) {
        var start := stateCounter;
        var end := stateCounter + 1;
        stateCounter := stateCounter + 2;
        stack := stack + [NFAFragment(start, {end}, map[(start, symbol) := {end}])];
        assert b.stack[..|b.stack|] == b.stack;
        assert Builder(stack, stateCounter) == Reduce(b, 0, Literal(start, symbol), stateCounter);
      } else if symbol == '|' {
        if |stack| < 2 {
          return Err(MissingOperands('|'));
        }
        var right := stack[|stack| - 1];
        var left := stack[|stack| - 2];
        stack := stack[..|stack| - 2];
        var start := stateCounter;
        var end := stateCounter + 1;
        stateCounter := stateCounter + 2;
        var fragment := BuildUnion(left, right, start, end);
        stack := stack + [fragment];
        assert Builder(stack, stateCounter) == Reduce(b, 2, Union(left, right, start, end), stateCounter);
      } else if symbol == '.' {
        if |stack| < 2 {
          return Err(MissingOperands('.'));
        }
        var right := stack[|stack| - 1];
        var left := stack[|stack| - 2];
        stack := stack[..|stack| - 2];
        left := BuildConcat(left, right);
        stack := stack + [left];
        assert Builder(stack, stateCounter) == Reduce(b, 2, Concat(b.stack[|b.stack| - 2], b.stack[|b.stack| - 1]), stateCounter);
      } else if symbol == '*' {
        if |stack| < 1 {
          return Err(MissingOperands('*'));
        }
        var fragment := stack[|stack| - 1];
        stack := stack[..|stack| - 1];
        var start := stateCounter;
        var end := stateCounter + 1;
        stateCounter := stateCounter + 2;
        var starred := BuildStar(fragment, start, end);
        stack := stack + [starred];
        assert Builder(stack, stateCounter) == Reduce(b, 1, Star(fragment, start, end), stateCounter);
      }
      assert BuildStep(b, symbol) == Ok(Builder(stack, stateCounter));
      i := i + 1;
    }
    if |stack| != 1 {
      return Err(MalformedExpression);
    }
    r := Ok(stack[|stack| - 1]);
  }

  /** The builder's postfix stage, ending in the NFA constructor. */
  method BuildNFAFromPostfix(postfix: string) returns (r: Result<NFA>)
    ensures r.Err? <==> BuildFragment(postfix).Err?
    ensures r.Err? ==> r.error == BuildFragment(postfix).error
    ensures r.Ok? ==> fresh(r.value) && r.value.Valid() && r.value.BuiltFrom(BuildFragment(postfix).value)
  {
    var fragment := BuildFragmentFromPostfix(postfix);
    if fragment.Err? {
      return Err(fragment.error);
    }
    var nfa := new NFA.FromFragment(fragment.value);
    r := Ok(nfa);
  }

  /** The builder's entry point: translate to postfix, then build. */
  method FromRegex(regex: string) returns (r: Result<NFA>)
    ensures r.Err? <==> Compile(regex).Err?
    ensures r.Err? ==> r.error == Compile(regex).error
    ensures r.Ok? ==> fresh(r.value) && r.value.Valid() && r.value.BuiltFrom(Compile(regex).value)
  {
    var postfix := InfixToPostfix(regex);
    if postfix.Err? {
      return Err(postfix.error);
    }
    r := BuildNFAFromPostfix(postfix.value);
  }

  // ---------------------------------------------------------------------
  // Operand counting: when the builder fails, and why

  /** The stack height after the symbols from `i` on, starting from height
      `d`, or the first operator that finds too few operands. */
  function StackHeight(postfix: string, i: nat, d: nat): Result<nat>
    requires i <= |postfix|
    decreases |postfix| - i
  {
    if i == |postfix| then Ok(d)
    else
      var c := postfix[i];
      if IsAlpha(c) then StackHeight(postfix, i + 1, d + 1)
      else if c == '|' || c == '.' then
        if d < 2 then Err(MissingOperands(c)) else StackHeight(postfix, i + 1, d - 1)
      else if c == '*' then
        if d < 1 then Err(MissingOperands(c)) else StackHeight(postfix, i + 1, d)
      else StackHeight(postfix, i + 1, d)
  }

  lemma {:induction false} RunBuildHeight(postfix: string, i: nat, b: Builder)
    requires i <= |postfix|
    ensures StackHeight(postfix, i, |b.stack|).Err? <==> RunBuild(postfix, i, b).Err?
    ensures RunBuild(postfix, i, b).Err? ==> RunBuild(postfix, i, b).error == StackHeight(postfix, i, |b.stack|).error
    ensures RunBuild(postfix, i, b).Ok? ==> |RunBuild(postfix, i, b).value.stack| == StackHeight(postfix, i, |b.stack|).value
    decreases |postfix| - i
  {
    if i < |postfix| {
      var step := BuildStep(b, postfix[i]);
      if step.Ok? {
        assert |step.value.stack| == if IsAlpha(postfix[i]) then |b.stack| + 1
                                     else if postfix[i] in "|." then |b.stack| - 1
                                     else |b.stack|;
        RunBuildHeight(postfix, i + 1, step.value);
      }
    }
  }

  /** The builder fails exactly when operand counting says so: an operator
      short of operands reports itself, and a final height other than one
      (an empty input included) is a malformed expression. */
  lemma BuildFragmentFails(postfix: string)
    ensures StackHeight(postfix, 0, 0).Err? ==> BuildFragment(postfix) == Err(StackHeight(postfix, 0, 0).error)
    ensures StackHeight(postfix, 0, 0).Ok? && StackHeight(postfix, 0, 0).value != 1 ==>
              BuildFragment(postfix) == Err(MalformedExpression)
    ensures StackHeight(postfix, 0, 0) == Ok(1) ==> BuildFragment(postfix).Ok?
  {
    RunBuildHeight(postfix, 0, Builder([], 0));
  }

  // ---------------------------------------------------------------------
  // Fragment invariants: one accept state without outgoing edges, ids in
  // disjoint ranges below the counter, merges that drop nothing

  /** Every state a table mentions lies in [lo, hi). */
  predicate TableWithin(t: NfaTable, lo: int, hi: int)
  {
    forall k | k in t :: lo <= k.0 < hi && forall u | u in t[k] :: lo <= u < hi
  }

  /** Every id a fragment mentions lies in [lo, hi). */
  predicate IdsWithin(f: NFAFragment, lo: int, hi: int)
  {
    && lo <= f.startState < hi
    && (forall a | a in f.acceptStates :: lo <= a < hi)
    && TableWithin(f.transitions, lo, hi)
  }

  /** Exactly one accept state, and no transition leaves it. */
  predicate WellFormed(f: NFAFragment)
  {
    && |f.acceptStates| == 1
    && (forall k | k in f.transitions :: k.0 !in f.acceptStates)
  }

  /** `bounds` cuts [0, counter) into consecutive ranges, one per stacked
      fragment, bottom first. */
  predicate Layout(b: Builder, bounds: seq<int>)
  {
    && |bounds| == |b.stack| + 1
    && bounds[0] == 0 && bounds[|b.stack|] == b.counter
    && (forall j | 0 <= j < |b.stack| :: bounds[j] < bounds[j + 1])
    && (forall j | 0 <= j < |b.stack| :: WellFormed(b.stack[j]) && IdsWithin(b.stack[j], bounds[j], bounds[j + 1]))
  }

  lemma AddEpsilonEdgesWithin(t: NfaTable, sources: set<int>, targets: set<int>, lo: int, hi: int)
    requires TableWithin(t, lo, hi)
    requires forall s | s in sources :: lo <= s < hi
    requires forall u | u in targets :: lo <= u < hi
    ensures TableWithin(AddEpsilonEdges(t, sources, targets), lo, hi)
  {
    var r := AddEpsilonEdges(t, sources, targets);
    forall k | k in r
      ensures lo <= k.0 < hi && forall u | u in r[k] :: lo <= u < hi
    {
      if k !in t {
        var s :| s in sources && k == (s, EPSILON);
      }
    }
  }

  /** Keys outside the linked sources keep their destinations. */
  lemma AddEpsilonEdgesKeeps(t: NfaTable, sources: set<int>, targets: set<int>, k: (int, char))
    requires k in t && k.0 !in sources
    ensures k in AddEpsilonEdges(t, sources, targets) && AddEpsilonEdges(t, sources, targets)[k] == t[k]
  {
  }

  lemma AddEpsilonEdgesSources(t: NfaTable, sources: set<int>, targets: set<int>, k: (int, char))
    requires k in AddEpsilonEdges(t, sources, targets)
    ensures k in t || k.0 in sources
  {
  }

  lemma MapInsertWithin(t: NfaTable, m: NfaTable, lo: int, hi: int)
    requires TableWithin(t, lo, hi) && TableWithin(m, lo, hi)
    ensures TableWithin(MapInsert(t, m), lo, hi)
  {
  }

  lemma LiteralFacts(c: int, symbol: char)
    ensures WellFormed(Literal(c, symbol)) && IdsWithin(Literal(c, symbol), c, c + 2)
  {
    assert Literal(c, symbol).acceptStates == {c + 1};
  }

  lemma UnionLinksFacts(left: NFAFragment, right: NFAFragment, c: int, lo: int, mid: int)
    requires IdsWithin(left, lo, mid) && IdsWithin(right, mid, c)
    ensures TableWithin(UnionLinks(left, right, c, c + 1), lo, c + 2)
    ensures forall k | k in UnionLinks(left, right, c, c + 1) ::
              k.0 == c || k.0 in left.acceptStates || k.0 in right.acceptStates
  {
    var t0 := map[(c, EPSILON) := {left.startState, right.startState}];
    var accepts := left.acceptStates + right.acceptStates;
    AddEpsilonEdgesWithin(t0, accepts, {c + 1}, lo, c + 2);
    forall k | k in UnionLinks(left, right, c, c + 1)
      ensures k.0 == c || k.0 in left.acceptStates || k.0 in right.acceptStates
    {
      AddEpsilonEdgesSources(t0, accepts, {c + 1}, k);
    }
  }

  /** Alternation yields a fragment over both operands' ranges and the two
      new ids. */
  lemma UnionWithin(left: NFAFragment, right: NFAFragment, c: int, lo: int, mid: int)
    requires IdsWithin(left, lo, mid) && IdsWithin(right, mid, c)
    ensures IdsWithin(Union(left, right, c, c + 1), lo, c + 2)
  {
    var t2 := UnionLinks(left, right, c, c + 1);
    UnionLinksFacts(left, right, c, lo, mid);
    assert TableWithin(left.transitions, lo, c + 2) && TableWithin(right.transitions, lo, c + 2);
    MapInsertWithin(t2, left.transitions, lo, c + 2);
    MapInsertWithin(MapInsert(t2, left.transitions), right.transitions, lo, c + 2);
  }

  /** Alternation yields one accept state, the new one, which no edge leaves. */
  lemma UnionWellFormed(left: NFAFragment, right: NFAFragment, c: int, lo: int, mid: int)
    requires WellFormed(left) && WellFormed(right)
    requires IdsWithin(left, lo, mid) && IdsWithin(right, mid, c)
    ensures WellFormed(Union(left, right, c, c + 1))
  {
    var t2 := UnionLinks(left, right, c, c + 1);
    var t3 := MapInsert(t2, left.transitions);
    var u := Union(left, right, c, c + 1);
    UnionLinksFacts(left, right, c, lo, mid);
    assert u.acceptStates == {c + 1} && |u.acceptStates| == 1;
    forall k | k in u.transitions
      ensures k.0 !in u.acceptStates
    {
      if k !in t3 {
        assert k in right.transitions;
      } else if k !in t2 {
        assert k in left.transitions;
      }
    }
  }

  /** Alternation's merges keep every entry of both operands: their keys
      miss the linking edges and each other. */
  lemma UnionKeeps(left: NFAFragment, right: NFAFragment, c: int, lo: int, mid: int)
    requires WellFormed(left) && WellFormed(right)
    requires IdsWithin(left, lo, mid) && IdsWithin(right, mid, c)
    ensures forall k | k in left.transitions ::
              k in Union(left, right, c, c + 1).transitions && Union(left, right, c, c + 1).transitions[k] == left.transitions[k]
    ensures forall k | k in right.transitions ::
              k in Union(left, right, c, c + 1).transitions && Union(left, right, c, c + 1).transitions[k] == right.transitions[k]
  {
    var t2 := UnionLinks(left, right, c, c + 1);
    UnionLinksFacts(left, right, c, lo, mid);
    forall k | k in left.transitions
      ensures k !in t2
    {
    }
    forall k | k in right.transitions
      ensures k !in t2 && k !in left.transitions
    {
    }
  }

  /** Concatenation yields a well-formed fragment over both operands' ranges. */
  lemma ConcatFacts(left: NFAFragment, right: NFAFragment, lo: int, mid: int, hi: int)
    requires WellFormed(left) && WellFormed(right)
    requires IdsWithin(left, lo, mid) && IdsWithin(right, mid, hi)
    ensures WellFormed(Concat(left, right)) && IdsWithin(Concat(left, right), lo, hi)
  {
    var t1 := AddEpsilonEdges(left.transitions, left.acceptStates, {right.startState});
    AddEpsilonEdgesWithin(left.transitions, left.acceptStates, {right.startState}, lo, hi);
    MapInsertWithin(t1, right.transitions, lo, hi);
    forall k | k in t1
      ensures k.0 < mid
    {
      AddEpsilonEdgesSources(left.transitions, left.acceptStates, {right.startState}, k);
    }
  }

  /** Concatenation keeps every entry of both operands. */
  lemma ConcatKeeps(left: NFAFragment, right: NFAFragment, lo: int, mid: int, hi: int)
    requires WellFormed(left) && WellFormed(right)
    requires IdsWithin(left, lo, mid) && IdsWithin(right, mid, hi)
    ensures forall k | k in left.transitions ::
              k in Concat(left, right).transitions && Concat(left, right).transitions[k] == left.transitions[k]
    ensures forall k | k in right.transitions ::
              k in Concat(left, right).transitions && Concat(left, right).transitions[k] == right.transitions[k]
  {
    var t1 := AddEpsilonEdges(left.transitions, left.acceptStates, {right.startState});
    forall k | k in t1
      ensures k.0 < mid
    {
      AddEpsilonEdgesSources(left.transitions, left.acceptStates, {right.startState}, k);
    }
    forall k | k in left.transitions
      ensures k in t1 && t1[k] == left.transitions[k]
    {
      AddEpsilonEdgesKeeps(left.transitions, left.acceptStates, {right.startState}, k);
    }
  }

  /** The star yields a well-formed fragment over the operand's range and the
      two new ids. */
  lemma StarFacts(f: NFAFragment, c: int, lo: int)
    requires WellFormed(f) && IdsWithin(f, lo, c)
    ensures WellFormed(Star(f, c, c + 1)) && IdsWithin(Star(f, c, c + 1), lo, c + 2)
  {
    var t1 := f.transitions[(c, EPSILON) := Dests(f.transitions, (c, EPSILON)) + {f.startState, c + 1}];
    assert TableWithin(t1, lo, c + 2);
    AddEpsilonEdgesWithin(t1, f.acceptStates, {f.startState, c + 1}, lo, c + 2);
    forall k | k in Star(f, c, c + 1).transitions
      ensures k.0 != c + 1
    {
      AddEpsilonEdgesSources(t1, f.acceptStates, {f.startState, c + 1}, k);
    }
    assert Star(f, c, c + 1).acceptStates == {c + 1};
  }

  /** The star keeps every entry of the operand. */
  lemma StarKeeps(f: NFAFragment, c: int, lo: int)
    requires WellFormed(f) && IdsWithin(f, lo, c)
    ensures forall k | k in f.transitions ::
              k in Star(f, c, c + 1).transitions && Star(f, c, c + 1).transitions[k] == f.transitions[k]
  {
    var t1 := f.transitions[(c, EPSILON) := Dests(f.transitions, (c, EPSILON)) + {f.startState, c + 1}];
    forall k | k in f.transitions
      ensures k in Star(f, c, c + 1).transitions && Star(f, c, c + 1).transitions[k] == f.transitions[k]
    {
      AddEpsilonEdgesKeeps(t1, f.acceptStates, {f.startState, c + 1}, k);
    }
  }

  /** Replacing the top `m` fragments by one fragment that lies in their
      ranges, extended up to the new counter, keeps the layout. */
  lemma ReplaceTop(b: Builder, bounds: seq<int>, m: nat, f: NFAFragment, counter': int, bounds': seq<int>)
    requires Layout(b, bounds) && m <= |b.stack|
    requires WellFormed(f) && IdsWithin(f, bounds[|b.stack| - m], counter')
    requires bounds' == bounds[..|b.stack| - m + 1] + [counter']
    ensures Layout(Reduce(b, m, f, counter'), bounds')
  {
    var k := |b.stack| - m;
    var stack' := b.stack[..k] + [f];
    assert bounds'[0] == 0;
    assert stack'[k] == f && bounds'[k] == bounds[k] && bounds'[k + 1] == counter';
  }

  lemma TopTwo(b: Builder, bounds: seq<int>)
    requires Layout(b, bounds) && |b.stack| >= 2
    ensures var n := |b.stack|;
            && WellFormed(b.stack[n - 2]) && WellFormed(b.stack[n - 1])
            && IdsWithin(b.stack[n - 2], bounds[n - 2], bounds[n - 1])
            && IdsWithin(b.stack[n - 1], bounds[n - 1], b.counter)
  {
    var n := |b.stack|;
    assert WellFormed(b.stack[n - 2]) && IdsWithin(b.stack[n - 2], bounds[n - 2], bounds[n - 1]);
    assert WellFormed(b.stack[n - 1]) && IdsWithin(b.stack[n - 1], bounds[n - 1], bounds[n]);
  }

  lemma UnionFragment(left: NFAFragment, right: NFAFragment, c: int, lo: int, mid: int)
    requires WellFormed(left) && WellFormed(right)
    requires IdsWithin(left, lo, mid) && IdsWithin(right, mid, c)
    ensures var u := Union(left, right, c, c + 1);
            WellFormed(u) && IdsWithin(u, lo, c + 2)
  {
    UnionWithin(left, right, c, lo, mid);
    UnionWellFormed(left, right, c, lo, mid);
  }

  // What each step builds, stated apart from the layout it keeps

  lemma LiteralStep(b: Builder, symbol: char)
    requires IsAlpha(symbol)
    ensures BuildStep(b, symbol) == Ok(Reduce(b, 0, Literal(b.counter, symbol), b.counter + 2))
  {
  }

  lemma UnionStepCore(s: seq<NFAFragment>, c: int)
    requires |s| >= 2
    ensures BuildStep(Builder(s, c), '|') == Ok(Reduce(Builder(s, c), 2, Union(s[|s| - 2], s[|s| - 1], c, c + 1), c + 2))
  {
  }

  lemma UnionStep(b: Builder)
    requires |b.stack| >= 2
    ensures BuildStep(b, '|') ==
            Ok(Reduce(b, 2, Union(b.stack[|b.stack| - 2], b.stack[|b.stack| - 1], b.counter, b.counter + 1), b.counter + 2))
  {
    UnionStepCore(b.stack, b.counter);
  }

  lemma ConcatStep(b: Builder)
    requires |b.stack| >= 2
    ensures BuildStep(b, '.') == Ok(Reduce(b, 2, Concat(b.stack[|b.stack| - 2], b.stack[|b.stack| - 1]), b.counter))
  {
  }

  lemma StarStepCore(s: seq<NFAFragment>, c: int)
    requires |s| >= 1
    ensures BuildStep(Builder(s, c), '*') == Ok(Reduce(Builder(s, c), 1, Star(s[|s| - 1], c, c + 1), c + 2))
  {
  }

  lemma StarStep(b: Builder)
    requires |b.stack| >= 1
    ensures BuildStep(b, '*') == Ok(Reduce(b, 1, Star(b.stack[|b.stack| - 1], b.counter, b.counter + 1), b.counter + 2))
  {
    StarStepCore(b.stack, b.counter);
  }

  // The layout each step keeps

  lemma UnionLayoutCore(s: seq<NFAFragment>, c: int, bounds: seq<int>)
    requires Layout(Builder(s, c), bounds) && |s| >= 2
    ensures Layout(Reduce(Builder(s, c), 2, Union(s[|s| - 2], s[|s| - 1], c, c + 1), c + 2), bounds[..|s| - 1] + [c + 2])
  {
    var b := Builder(s, c);
    TopTwo(b, bounds);
    UnionFragment(s[|s| - 2], s[|s| - 1], c, bounds[|s| - 2], bounds[|s| - 1]);
    ReplaceTop(b, bounds, 2, Union(s[|s| - 2], s[|s| - 1], c, c + 1), c + 2, bounds[..|s| - 1] + [c + 2]);
  }

  lemma UnionStepLayout(b: Builder, bounds: seq<int>)
    requires Layout(b, bounds) && |b.stack| >= 2
    ensures Layout(Reduce(b, 2, Union(b.stack[|b.stack| - 2], b.stack[|b.stack| - 1], b.counter, b.counter + 1), b.counter + 2),
                   bounds[..|b.stack| - 1] + [b.counter + 2])
  {
    UnionLayoutCore(b.stack, b.counter, bounds);
  }

  lemma ConcatStepLayout(b: Builder, bounds: seq<int>)
    requires Layout(b, bounds) && |b.stack| >= 2
    ensures Layout(Reduce(b, 2, Concat(b.stack[|b.stack| - 2], b.stack[|b.stack| - 1]), b.counter),
                   bounds[..|b.stack| - 1] + [b.counter])
  {
    var n := |b.stack|;
    var u := Concat(b.stack[n - 2], b.stack[n - 1]);
    TopTwo(b, bounds);
    ConcatFacts(b.stack[n - 2], b.stack[n - 1], bounds[n - 2], bounds[n - 1], bounds[n]);
    ReplaceTop(b, bounds, 2, u, b.counter, bounds[..|b.stack| - 1] + [b.counter]);
  }

  lemma StarLayoutCore(s: seq<NFAFragment>, c: int, bounds: seq<int>)
    requires Layout(Builder(s, c), bounds) && |s| >= 1
    ensures Layout(Reduce(Builder(s, c), 1, Star(s[|s| - 1], c, c + 1), c + 2), bounds[..|s|] + [c + 2])
  {
    var n := |s|;
    assert WellFormed(s[n - 1]) && IdsWithin(s[n - 1], bounds[n - 1], bounds[n]);
    StarFacts(s[n - 1], c, bounds[n - 1]);
    ReplaceTop(Builder(s, c), bounds, 1, Star(s[n - 1], c, c + 1), c + 2, bounds[..n] + [c + 2]);
  }

  lemma StarStepLayout(b: Builder, bounds: seq<int>)
    requires Layout(b, bounds) && |b.stack| >= 1
    ensures Layout(Reduce(b, 1, Star(b.stack[|b.stack| - 1], b.counter, b.counter + 1), b.counter + 2),
                   bounds[..|b.stack|] + [b.counter + 2])
  {
    StarLayoutCore(b.stack, b.counter, bounds);
  }

  lemma LiteralStepLayout(b: Builder, bounds: seq<int>, symbol: char)
    requires Layout(b, bounds) && IsAlpha(symbol)
    ensures Layout(Reduce(b, 0, Literal(b.counter, symbol), b.counter + 2), bounds + [b.counter + 2])
  {
    var n := |b.stack|;
    var u := Literal(b.counter, symbol);
    LiteralFacts(b.counter, symbol);
    assert b.stack[..n] == b.stack && bounds[..n + 1] == bounds;
    ReplaceTop(b, bounds, 0, u, b.counter + 2, bounds + [b.counter + 2]);
  }

  /** One builder step keeps the layout: the new top fragment is well formed
      and occupies the ranges of the operands it consumed plus any new ids. */
  lemma BuildStepLayout(b: Builder, symbol: char, bounds: seq<int>) returns (bounds': seq<int>)
    requires Layout(b, bounds) && BuildStep(b, symbol).Ok?
    ensures Layout(BuildStep(b, symbol).value, bounds')
  {
    var n := |b.stack|;
    if IsAlpha(symbol) {
      LiteralStep(b, symbol);
      LiteralStepLayout(b, bounds, symbol);
      bounds' := bounds + [b.counter + 2];
    } else if symbol == '|' {
      UnionStep(b);
      UnionStepLayout(b, bounds);
      bounds' := bounds[..n - 1] + [b.counter + 2];
    } else if symbol == '.' {
      ConcatStep(b);
      ConcatStepLayout(b, bounds);
      bounds' := bounds[..n - 1] + [b.counter];
    } else if symbol == '*' {
      StarStep(b);
      StarStepLayout(b, bounds);
      bounds' := bounds[..n] + [b.counter + 2];
    } else {
      bounds' := bounds;
    }
  }

  /** Ids a postfix expression takes from the counter: two per letter, per
      `|` and per `*`. */
  function FreshIds(s: string): nat
  {
    if s == [] then 0
    else (if IsAlpha(s[0]) || s[0] == '|' || s[0] == '*' then 2 else 0) + FreshIds(s[1..])
  }

  lemma {:induction false} RunBuildLayout(postfix: string, i: nat, b: Builder, bounds: seq<int>) returns (bounds': seq<int>)
    requires i <= |postfix| && Layout(b, bounds) && RunBuild(postfix, i, b).Ok?
    ensures Layout(RunBuild(postfix, i, b).value, bounds')
    ensures RunBuild(postfix, i, b).value.counter == b.counter + FreshIds(postfix[i..])
    decreases |postfix| - i
  {
    if i == |postfix| {
      bounds' := bounds;
      assert postfix[i..] == [];
    } else {
      var next := BuildStepLayout(b, postfix[i], bounds);
      bounds' := RunBuildLayout(postfix, i + 1, BuildStep(b, postfix[i]).value, next);
      assert postfix[i..][1..] == postfix[i + 1..];
    }
  }

  /** A built fragment has one accept state that no edge leaves, and all its
      ids lie below the number of ids the expression takes. */
  lemma BuildFragmentWellFormed(postfix: string)
    ensures BuildFragment(postfix).Ok? ==>
              WellFormed(BuildFragment(postfix).value) && IdsWithin(BuildFragment(postfix).value, 0, FreshIds(postfix))
  {
    if BuildFragment(postfix).Ok? {
      var bounds := RunBuildLayout(postfix, 0, Builder([], 0), [0]);
      assert postfix[0..] == postfix;
    }
  }

  /** The edges alternation adds for "a|b". */
  lemma UnionLinksExample()
    ensures UnionLinks(Literal(0, 'a'), Literal(2, 'b'), 4, 5) ==
            map[(4, EPSILON) := {0, 2}, (1, EPSILON) := {5}, (3, EPSILON) := {5}]
  {
    var t := map[(4, EPSILON) := {0, 2}];
    var linked := set s | s in {1, 3} :: (s, EPSILON);
    assert linked == {(1, EPSILON), (3, EPSILON)} by {
      assert (1, EPSILON) in linked && (3, EPSILON) in linked;
    }
    var r := AddEpsilonEdges(t, {1, 3}, {5});
    assert r.Keys == {(4, EPSILON), (1, EPSILON), (3, EPSILON)};
    assert r[(4, EPSILON)] == {0, 2} && r[(1, EPSILON)] == {5} && r[(3, EPSILON)] == {5};
  }

  /** The fragment alternation builds for "a|b". */
  lemma UnionExample()
    ensures Union(Literal(0, 'a'), Literal(2, 'b'), 4, 5) ==
            NFAFragment(4, {5}, map[(0, 'a') := {1}, (2, 'b') := {3},
                                    (4, EPSILON) := {0, 2}, (1, EPSILON) := {5}, (3, EPSILON) := {5}])
  {
    UnionLinksExample();
    var links := map[(4, EPSILON) := {0, 2}, (1, EPSILON) := {5}, (3, EPSILON) := {5}];
    var t1 := MapInsert(links, map[(0, 'a') := {1}]);
    assert t1 == links[(0, 'a') := {1}];
    var t2 := MapInsert(t1, map[(2, 'b') := {3}]);
    assert t2 == t1[(2, 'b') := {3}];
  }

  /** "a|b": letters take ids 0-1 and 2-3, the alternation 4 and 5. */
  lemma CompileUnion()
    ensures Compile("a|b") == Ok(NFAFragment(4, {5}, map[(0, 'a') := {1}, (2, 'b') := {3},
                                                         (4, EPSILON) := {0, 2}, (1, EPSILON) := {5}, (3, EPSILON) := {5}]))
  {
    PostfixUnion();
    var b := Builder([Literal(0, 'a'), Literal(2, 'b')], 4);
    assert RunBuild("ab|", 0, Builder([], 0)) == RunBuild("ab|", 2, b);
    UnionStepCore(b.stack, b.counter);
    UnionExample();
  }

  /** "ab" translates to "a.b", whose `.` finds a single operand. */
  lemma CompileJuxtaposed()
    ensures Compile("ab") == Err(MissingOperands('.'))
  {
    PostfixJuxtaposed();
  }
}
