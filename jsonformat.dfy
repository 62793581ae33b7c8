// JsonForamtor.Format (WebAccessorCore/Utils/JsonForamtor.cs): a pretty
// printer driven by a stack of the input's characters. Spaces, carriage
// returns and line feeds of the input are dropped, even inside string
// literals; '{' opens a level and '}' closes one; after '{', '[', ']' and
// ',' a line break and TabSize spaces per level are appended; a '}' either
// gets its own line or, when the character TabSize·(1 + level) + 3 places
// from the end is a bracket, takes back TabSize characters before it. The
// StringBuilder calls throw on an index or a count out of range; those
// exceptions are the Fail outcomes here.

module JsonFormatting {
  /** The exceptions Format can raise. */
  datatype FormatError = IndexOutOfRange | ArgumentOutOfRange

  datatype Result<T> = Ok(value: T) | Fail(error: FormatError)

  /** The builder and the level after a prefix of the input, or the
      exception that stopped the loop. */
  datatype Progress = Running(sb: string, level: int) | Thrown(error: FormatError)

  /** The characters the loop skips without appending. */
  predicate Skipped(k: char)
  {
    k == '\n' || k == '\r' || k == ' '
  }

  /** The characters followed by a line break and the indentation. */
  predicate Breaks(k: char)
  {
    k == '{' || k == '[' || k == ']' || k == ','
  }

  /** StringBuilder.Append(' ', n) for n >= 0. */
  function Spaces(n: nat): (s: string)
    ensures |s| == n && forall i :: 0 <= i < n ==> s[i] == ' '
  {
    seq(n, _ => ' ')
  }

  /** The '}' branch: sb already ends with the '}' and level is lowered. */
  function Close(tab: int, sb: string, level: int): Progress
    requires |sb| > 0 && sb[|sb| - 1] == '}'
  {
    var at := |sb| - tab * (1 + level) - 3;
    if !(0 <= at < |sb|) then Thrown(IndexOutOfRange)
    else if sb[at] != ']' && sb[at] != '}' then
      if tab * level < 0 then Thrown(ArgumentOutOfRange)
      else Running(sb[..|sb| - 1] + ['\n'] + Spaces(tab * level) + ['}'], level)
    else if |sb| - tab - 1 < 0 || tab < 0 then Thrown(ArgumentOutOfRange)
    else Running(sb[..|sb| - tab - 1] + ['}'], level)
  }

  /** One character popped from the stack. */
  function Step(tab: int, p: Progress, k: char): Progress
  {
    if p.Thrown? || Skipped(k) then p
    else
      var level := if k == '{' then p.level + 1 else if k == '}' then p.level - 1 else p.level;
      var sb := p.sb + [k];
      if Breaks(k) then
        if tab * level < 0 then Thrown(ArgumentOutOfRange) else Running(sb + ['\n'] + Spaces(tab * level), level)
      else if k == '}' then Close(tab, sb, level)
      else Running(sb, level)
  }

  /** The loop over the whole input, one character at a time. */
  function Run(tab: int, json: string): Progress
  {
    if |json| == 0 then Running("", 0) else Step(tab, Run(tab, json[..|json| - 1]), json[|json| - 1])
  }

  /** What Format returns, or the exception it throws. */
  function Formatted(tab: int, json: string): Result<string>
  {
    match Run(tab, json)
    case Running(sb, _) => Ok(sb)
    case Thrown(e) => Fail(e)
  }

  class JsonForamtor {
    var TabSize: int

    /** The constructor sets TabSize to 4. */
    constructor ()
      ensures TabSize == 4
    {
      TabSize := 4;
    }

    /** JsonForamtor.Format(json). */
    method Format(json: string) returns (r: Result<string>)
      ensures r == Formatted(TabSize, json)
    {
      var jsonstack := json;
      var level := 0;
      var sb := "";
      var i := 0;
      while i < |json|
        invariant 0 <= i <= |json| && jsonstack == json[i..]
        invariant Run(TabSize, json[..i]) == Running(sb, level)
      {
        assert json[..i + 1] == json[..i] + [json[i]];
        var k := jsonstack[0];
        jsonstack := jsonstack[1..];
        var p := Pop(k, sb, level);
        if p.Thrown? {
          ThrownStays(TabSize, json, i + 1);
          return Fail(p.error);
        }
        sb, level := p.sb, p.level;
        i := i + 1;
      }
      assert json[..i] == json;
      return Ok(sb);
    }

    /** The body of the loop for the popped character k: the switch, the
        Append and the next / right handling. */
    method Pop(k: char, sb0: string, level0: int) returns (p: Progress)
      ensures p == Step(TabSize, Running(sb0, level0), k)
    {
      var sb, level := sb0, level0;
      var next := false;
      var right := false;
      if k == '{' {
        level := level + 1;
        next := true;
      } else if k == '}' {
        level := level - 1;
        right := true;
      } else if k == '[' || k == ']' || k == ',' {
        next := true;
      } else if k == '\n' || k == '\r' || k == ' ' {
        return Running(sb, level);
      }
      sb := sb + [k];
      if next {
        if TabSize * level < 0 {
          return Thrown(ArgumentOutOfRange);
        }
        sb := sb + ['\n'] + Spaces(TabSize * level);
      } else if right {
        p := CloseBrace(sb, level);
        return;
      }
      return Running(sb, level);
    }

    /** The right branch: the character before the closing brace's
        expected indentation decides between a new line and taking back
        TabSize characters. */
    method CloseBrace(sb0: string, level: int) returns (p: Progress)
      requires |sb0| > 0 && sb0[|sb0| - 1] == '}'
      ensures p == Close(TabSize, sb0, level)
    {
      var sb := sb0;
      assert sb[|sb| - 1..] == ['}'];
      var at := |sb| - TabSize * (1 + level) - 3;
      if at < 0 || at >= |sb| {
        return Thrown(IndexOutOfRange);
      }
      var c := sb[at];
      if c != ']' && c != '}' {
        sb := sb[..|sb| - 1] + ['\n'] + sb[|sb| - 1..];
        assert sb[..|sb| - 1] == sb0[..|sb0| - 1] + ['\n'] && sb[|sb| - 1..] == ['}'];
        if TabSize * level < 0 {
          return Thrown(ArgumentOutOfRange);
        }
        sb := sb[..|sb| - 1] + Spaces(TabSize * level) + sb[|sb| - 1..];
      } else {
        if |sb| - TabSize - 1 < 0 || TabSize < 0 {
          return Thrown(ArgumentOutOfRange);
        }
        sb := sb[..|sb| - TabSize - 1] + sb[|sb| - 1..];
      }
      return Running(sb, level);
    }
  }

  /** Once an exception is thrown the rest of the input is never read. */
  lemma {:induction false} ThrownStays(tab: int, json: string, n: int)
    requires 0 <= n <= |json| && Run(tab, json[..n]).Thrown?
    ensures Run(tab, json) == Run(tab, json[..n])
    decreases |json| - n
  {
    if n < |json| {
      assert json[..n + 1][..n] == json[..n];
      ThrownStays(tab, json, n + 1);
    } else {
      assert json[..n] == json;
    }
  }

  // ---------------------------------------------------------------- what Format does

  /** level rises at each '{' and falls at each '}'; nothing else moves it. */
  lemma {:induction false} FormatLevel(tab: int, json: string)
    ensures Run(tab, json).Running? ==> Run(tab, json).level == multiset(json)['{'] as int - multiset(json)['}'] as int
  {
    if |json| > 0 {
      var front, k := json[..|json| - 1], json[|json| - 1];
      assert json == front + [k];
      FormatLevel(tab, front);
    }
  }

  /** The text with the characters Format treats as layout taken out. */
  function Strip(s: string): (t: string)
    ensures |t| <= |s|
  {
    if |s| == 0 then ""
    else if Skipped(s[|s| - 1]) then Strip(s[..|s| - 1])
    else Strip(s[..|s| - 1]) + [s[|s| - 1]]
  }

  lemma {:induction false} StripAppend(a: string, b: string)
    ensures Strip(a + b) == Strip(a) + Strip(b)
    decreases |b|
  {
    if |b| > 0 {
      assert (a + b)[..|a + b| - 1] == a + b[..|b| - 1];
      StripAppend(a, b[..|b| - 1]);
    } else {
      assert a + b == a;
    }
  }

  lemma {:induction false} StripSpaces(n: nat)
    ensures Strip(Spaces(n)) == ""
  {
    if n > 0 {
      assert Spaces(n)[..n - 1] == Spaces(n - 1);
      StripSpaces(n - 1);
    }
  }

  /** How many line breaks Format appends for the input: one per '{', '[',
      ']' and ','. */
  function BreakCount(json: string): nat
  {
    multiset(json)['{'] + multiset(json)['['] + multiset(json)[']'] + multiset(json)[',']
  }

  /** Without a '}' (and with TabSize >= 0) Format never throws; every
      character other than a space, '\r' or '\n' is copied exactly once and
      in order; what it adds are line breaks, one after each '{', '[', ']'
      and ',', and spaces. */
  lemma {:induction false} FormatPlain(tab: int, json: string)
    requires tab >= 0 && forall i :: 0 <= i < |json| ==> json[i] != '}'
    ensures Run(tab, json).Running? && Run(tab, json).level >= 0
    ensures Strip(Run(tab, json).sb) == Strip(json)
    ensures multiset(Run(tab, json).sb)['\n'] == BreakCount(json)
  {
    if |json| > 0 {
      var front, k := json[..|json| - 1], json[|json| - 1];
      assert json == front + [k];
      FormatPlain(tab, front);
      assert Run(tab, json) == Step(tab, Run(tab, front), k);
      PlainStep(tab, Run(tab, front), k);
      StripAppend(front, [k]);
      BreakCountSnoc(front, k);
    }
  }

  /** On any input, '}' included: whatever Format returns holds no character
      other than a line break or a space more often than the input does.
      Those two are the only characters it inserts. */
  lemma {:induction false} FormatInsertsOnlyLayout(tab: int, json: string, c: char)
    requires c != '\n' && c != ' '
    ensures Run(tab, json).Running? ==> multiset(Run(tab, json).sb)[c] <= multiset(json)[c]
  {
    if |json| > 0 {
      var front, k := json[..|json| - 1], json[|json| - 1];
      assert json == front + [k];
      FormatInsertsOnlyLayout(tab, front, c);
      if Run(tab, json).Running? {
        assert Run(tab, front).Running?;
        StepCount(tab, Run(tab, front), k, c);
        assert multiset(json) == multiset(front) + multiset{k};
      }
    }
  }

  /** One step adds at most the popped character itself, besides layout. */
  lemma StepCount(tab: int, p: Progress, k: char, c: char)
    requires p.Running? && c != '\n' && c != ' ' && Step(tab, p, k).Running?
    ensures multiset(Step(tab, p, k).sb)[c] <= multiset(p.sb)[c] + if k == c then 1 else 0
  {
    var level := if k == '{' then p.level + 1 else if k == '}' then p.level - 1 else p.level;
    var sb := p.sb + [k];
    assert multiset(sb) == multiset(p.sb) + multiset{k};
    if Skipped(k) {
    } else if Breaks(k) {
      var n := tab * level;
      assert c !in multiset(Spaces(n));
      assert multiset(sb + ['\n'] + Spaces(n)) == multiset(sb) + multiset{'\n'} + multiset(Spaces(n));
    } else if k == '}' {
      CloseCount(tab, sb, level, c);
    }
  }

  /** The '}' branch either lays the brace out on a new line or takes back
      characters before it: neither adds anything but layout. */
  lemma CloseCount(tab: int, sb: string, level: int, c: char)
    requires |sb| > 0 && sb[|sb| - 1] == '}' && Close(tab, sb, level).Running? && c != '\n' && c != ' '
    ensures multiset(Close(tab, sb, level).sb)[c] <= multiset(sb)[c]
  {
    var at := |sb| - tab * (1 + level) - 3;
    if sb[at] != ']' && sb[at] != '}' {
      NewLineCount(sb, tab * level, c);
    } else {
      TakeBackCount(sb, |sb| - tab - 1, c);
    }
  }

  /** Laying the brace out on a new indented line adds only layout. */
  lemma NewLineCount(sb: string, n: nat, c: char)
    requires |sb| > 0 && sb[|sb| - 1] == '}' && c != '\n' && c != ' '
    ensures multiset(sb[..|sb| - 1] + ['\n'] + Spaces(n) + ['}'])[c] == multiset(sb)[c]
  {
    var front := sb[..|sb| - 1];
    assert sb == front + ['}'];
    assert c !in multiset(Spaces(n));
    assert multiset(front + ['\n'] + Spaces(n) + ['}'])
           == multiset(front) + multiset{'\n'} + multiset(Spaces(n)) + multiset{'}'};
  }

  /** Taking back characters before the brace adds nothing. */
  lemma TakeBackCount(sb: string, m: int, c: char)
    requires |sb| > 0 && sb[|sb| - 1] == '}' && 0 <= m < |sb|
    ensures multiset(sb[..m] + ['}'])[c] <= multiset(sb)[c]
  {
    assert sb == sb[..m] + sb[m..|sb| - 1] + ['}'];
    assert multiset(sb) == multiset(sb[..m]) + multiset(sb[m..|sb| - 1]) + multiset{'}'};
  }

  lemma BreakCountSnoc(s: string, k: char)
    ensures BreakCount(s + [k]) == BreakCount(s) + if Breaks(k) then 1 else 0
  {
    assert multiset(s + [k]) == multiset(s) + multiset{k};
  }

  lemma PlainStep(tab: int, p: Progress, k: char)
    requires tab >= 0 && p.Running? && p.level >= 0 && k != '}'
    ensures Step(tab, p, k).Running? && Step(tab, p, k).level >= 0
    ensures Strip(Step(tab, p, k).sb) == Strip(p.sb) + Strip([k])
    ensures multiset(Step(tab, p, k).sb)['\n'] == multiset(p.sb)['\n'] + if Breaks(k) then 1 else 0
  {
    assert [k][..0] == [];
    if Skipped(k) {
      assert Strip([k]) == [];
    } else if Breaks(k) {
      BreakStep(tab, p.sb, p.level, k);
    } else {
      StripAppend(p.sb, [k]);
    }
  }

  /** After '{', '[', ']' or ',' only a line break and spaces are added. */
  lemma BreakStep(tab: int, sb: string, level: int, k: char)
    requires tab >= 0 && level >= 0 && Breaks(k)
    ensures var q := Step(tab, Running(sb, level), k);
            q.Running? && q.level >= 0 && Strip(q.sb) == Strip(sb) + [k]
            && multiset(q.sb)['\n'] == multiset(sb)['\n'] + 1
  {
    var n := BreakAppends(tab, sb, level, k);
    StripLine(sb, k, n);
    CountLine(sb, k, Spaces(n));
  }

  /** The text a break appends, with the indentation of the new level. */
  lemma BreakAppends(tab: int, sb: string, level: int, k: char) returns (n: nat)
    requires tab >= 0 && level >= 0 && Breaks(k)
    ensures var level' := if k == '{' then level + 1 else level;
            Step(tab, Running(sb, level), k) == Running(sb + [k] + ['\n'] + Spaces(n), level') && level' >= 0
  {
    var level' := if k == '{' then level + 1 else level;
    assert tab * level' >= 0;
    n := tab * level';
  }

  lemma StripLine(sb: string, k: char, n: nat)
    requires !Skipped(k)
    ensures Strip(sb + [k] + ['\n'] + Spaces(n)) == Strip(sb) + [k]
  {
    StripAppend(sb, [k]);
    StripAppend(sb + [k], ['\n']);
    StripAppend(sb + [k] + ['\n'], Spaces(n));
    StripSpaces(n);
    assert [k][..0] == [] && ['\n'][..0] == [];
  }

  lemma CountLine(sb: string, k: char, indent: string)
    requires k != '\n' && '\n' !in indent
    ensures multiset(sb + [k] + ['\n'] + indent)['\n'] == multiset(sb)['\n'] + 1
  {
    assert multiset(sb + [k] + ['\n'] + indent) == multiset(sb) + multiset{k} + multiset{'\n'} + multiset(indent);
  }

  /** A '}' before anything but layout throws: the index read is -2. */
  lemma FormatEarlyClose(tab: int, json: string, n: int)
    requires 0 <= n < |json| && json[n] == '}' && forall i :: 0 <= i < n ==> Skipped(json[i])
    ensures Formatted(tab, json) == Fail(IndexOutOfRange)
  {
    LayoutOnly(tab, json[..n]);
    assert json[..n + 1] == json[..n] + ['}'];
    ThrownStays(tab, json, n + 1);
  }

  lemma {:induction false} LayoutOnly(tab: int, json: string)
    requires forall i :: 0 <= i < |json| ==> Skipped(json[i])
    ensures Run(tab, json) == Running("", 0)
  {
    if |json| > 0 {
      LayoutOnly(tab, json[..|json| - 1]);
    }
  }

  /** An object with one member, at the default TabSize. */
  lemma FormatObject()
    ensures Formatted(4, "{\"a\":1}") == Ok("{\n    \"a\":1\n}")
  {
    assert "{"[..0] == "";
    assert Run(4, "{") == Running("{\n    ", 1);
    assert "{\""[..1] == "{";
    assert Run(4, "{\"") == Running("{\n    \"", 1);
    assert "{\"a"[..2] == "{\"";
    assert Run(4, "{\"a") == Running("{\n    \"a", 1);
    assert "{\"a\""[..3] == "{\"a";
    assert Run(4, "{\"a\"") == Running("{\n    \"a\"", 1);
    assert "{\"a\":"[..4] == "{\"a\"";
    assert Run(4, "{\"a\":") == Running("{\n    \"a\":", 1);
    assert "{\"a\":1"[..5] == "{\"a\":";
    assert Run(4, "{\"a\":1") == Running("{\n    \"a\":1", 1);
    assert "{\"a\":1}"[..6] == "{\"a\":1";
    assert Run(4, "{\"a\":1}") == Running("{\n    \"a\":1\n}", 0);
  }

  /** Input that closes more than it opens: the '}' after "[]" finds the
      ']' and takes back four characters, the brackets and line breaks. */
  lemma FormatEatsBrackets()
    ensures Formatted(4, "[]}") == Ok("}")
  {
    assert "["[..0] == "";
    assert Run(4, "[") == Running("[\n", 0);
    assert "[]"[..1] == "[";
    assert Run(4, "[]") == Running("[\n]\n", 0);
    assert "[]}"[..2] == "[]";
    assert Run(4, "[]}") == Running("}", -1);
  }

  /** Balanced braces do not make the take-back safe: text after a '}' can
      put that '}' where the next '}' looks for a bracket, and four
      characters of the text are lost. */
  lemma FormatEatsText()
    ensures Formatted(4, "{{}abcde}") == Ok("{\n    {\n        \n    }a}")
  {
    var sb := "{\n    {\n        \n    }";
    NestedClose();
    PlainText(4, "{{}", "abcde", sb, 1);
    assert "{{}" + "abcde" == "{{}abcde";
    RunSnoc(4, "{{}abcde", '}');
    assert "{{}abcde" + ['}'] == "{{}abcde}";
    var closing := sb + "abcde" + ['}'];
    assert Run(4, "{{}abcde}") == Close(4, closing, 0);
    assert |closing| == 28 && closing[21] == '}' && closing[27] == '}';
    assert closing[..23] + ['}'] == "{\n    {\n        \n    }a}";
  }

  /** Characters that are neither layout nor brackets, braces or commas are
      appended as they come. */
  lemma {:induction false} PlainText(tab: int, s: string, t: string, sb: string, level: int)
    requires Run(tab, s) == Running(sb, level)
    requires forall i :: 0 <= i < |t| ==> !Skipped(t[i]) && !Breaks(t[i]) && t[i] != '}'
    ensures Run(tab, s + t) == Running(sb + t, level)
    decreases |t|
  {
    if |t| > 0 {
      var front, k := t[..|t| - 1], t[|t| - 1];
      PlainText(tab, s, front, sb, level);
      assert s + t == (s + front) + [k];
      RunSnoc(tab, s + front, k);
      assert sb + t == (sb + front) + [k];
    } else {
      assert s + t == s && sb + t == sb;
    }
  }

  /** "{{}": two openings and the first close, which finds no bracket four
      columns back and lays the '}' out on a line of its own. */
  lemma NestedClose()
    ensures Run(4, "{{}") == Running("{\n    {\n        \n    }", 1)
  {
    assert "{"[..0] == "";
    assert Run(4, "{") == Running("{\n    ", 1);
    assert "{{"[..1] == "{";
    assert Run(4, "{{") == Running("{\n    {\n        ", 2);
    RunSnoc(4, "{{", '}');
    assert "{{" + ['}'] == "{{}";
    var closing := "{\n    {\n        " + ['}'];
    assert Run(4, "{{}") == Close(4, closing, 1);
    assert |closing| == 17 && closing[6] == '{' && closing[16] == '}';
    assert Spaces(4) == "    ";
  }

  /** Run takes one more step for one more character. */
  lemma RunSnoc(tab: int, s: string, k: char)
    ensures Run(tab, s + [k]) == Step(tab, Run(tab, s), k)
  {
    assert (s + [k])[..|s|] == s;
  }
}
