// JsonRequestDataFormator.GetData (WebAccessorCore/ApiClient/
// JsonRequestDataFormator.cs): the request body as a JSON object. Each pair
// is appended as a quoted key, a colon and the raw value, followed by a
// comma; the last character is then removed and '}' appended. With no
// pairs the removed character is the opening '{' itself, and the body is
// "}".

module JsonRequestData {
  /** KeyValuePair<string, string>. */
  type Pair = (string, string)

  /** One member: the key in double quotes, a colon, the value as given. */
  function Member(kv: Pair): string
  {
    ['"'] + kv.0 + ['"', ':'] + kv.1
  }

  /** The members of the pairs, in order. */
  function Members(args: seq<Pair>): (ms: seq<string>)
    ensures |ms| == |args| && forall i :: 0 <= i < |args| ==> ms[i] == Member(args[i])
  {
    seq(|args|, i requires 0 <= i < |args| => Member(args[i]))
  }

  /** The strings separated by commas. */
  function Join(ms: seq<string>): string
  {
    if |ms| == 0 then "" else if |ms| == 1 then ms[0] else ms[0] + [','] + Join(ms[1..])
  }

  /** The body GetData builds: a JSON object of the members in order, or
      "}" when there are none. */
  function RequestBody(args: seq<Pair>): string
  {
    if |args| == 0 then "}" else ['{'] + Join(Members(args)) + ['}']
  }

  /** What the foreach loop has appended after the opening brace: every
      member followed by a comma. */
  function Appended(args: seq<Pair>): string
  {
    if |args| == 0 then "" else Appended(args[..|args| - 1]) + Member(args[|args| - 1]) + [',']
  }

  /** GetData(args, encoding, url); the encoding and the url are not read. */
  method GetData(args: seq<Pair>) returns (data: string)
    ensures data == RequestBody(args)
  {
    var bulider := ['{'];
    for i := 0 to |args|
      invariant bulider == ['{'] + Appended(args[..i])
    {
      assert args[..i + 1][..i] == args[..i];
      var kv := args[i];
      bulider := bulider + ['"'];
      bulider := bulider + kv.0;
      bulider := bulider + ['"', ':'];
      bulider := bulider + kv.1;
      bulider := bulider + [','];
    }
    assert args[..|args|] == args;
    bulider := bulider[..|bulider| - 1];
    bulider := bulider + ['}'];
    if |args| > 0 {
      AppendedIsJoin(args);
    }
    return bulider;
  }

  lemma {:induction false} JoinSnoc(ms: seq<string>, m: string)
    requires |ms| > 0
    ensures Join(ms + [m]) == Join(ms) + [','] + m
  {
    if |ms| > 1 {
      assert (ms + [m])[1..] == ms[1..] + [m];
      JoinSnoc(ms[1..], m);
    } else {
      assert (ms + [m])[1..] == [m];
    }
  }

  /** The comma after the last member is exactly what Remove takes away. */
  lemma {:induction false} AppendedIsJoin(args: seq<Pair>)
    requires |args| > 0
    ensures Appended(args) == Join(Members(args)) + [',']
  {
    var front := args[..|args| - 1];
    if |front| > 0 {
      AppendedIsJoin(front);
      assert Members(args) == Members(front) + [Member(args[|args| - 1])];
      JoinSnoc(Members(front), Member(args[|args| - 1]));
    }
  }

  // ---------------------------------------------------------------- what the body holds

  /** The sum of |key| + |value| + 4 over the pairs. */
  function Sizes(args: seq<Pair>): nat
  {
    if |args| == 0 then 0 else Sizes(args[..|args| - 1]) + |args[|args| - 1].0| + |args[|args| - 1].1| + 4
  }

  /** With at least one pair the body is 1 + sum(|key| + |value| + 4) long:
      three quotes and colon per member, the commas, and the two braces. */
  lemma {:induction false} RequestBodyLength(args: seq<Pair>)
    requires |args| > 0
    ensures |RequestBody(args)| == 1 + Sizes(args)
  {
    AppendedLength(args);
    AppendedIsJoin(args);
  }

  lemma {:induction false} AppendedLength(args: seq<Pair>)
    ensures |Appended(args)| == Sizes(args)
  {
    if |args| > 0 {
      AppendedLength(args[..|args| - 1]);
    }
  }

  /** Where member i starts in the body: after the '{' and the earlier
      members with their commas. */
  function Offset(args: seq<Pair>, i: int): int
    requires 0 <= i <= |args|
  {
    1 + Sizes(args[..i])
  }

  /** The pairs keep their order: member i (its key quoted, its value as
      given) sits at Offset(args, i), followed by a comma, or by the closing
      '}' when it is the last. */
  lemma MemberAt(args: seq<Pair>, i: int)
    requires 0 <= i < |args|
    ensures var o, m := Offset(args, i), Member(args[i]);
            o + |m| < |RequestBody(args)| && RequestBody(args)[o..o + |m|] == m
            && RequestBody(args)[o + |m|] == if i + 1 < |args| then ',' else '}'
  {
    BodyIsAppended(args);
    MemberInAppended(args, i);
    Framed(RequestBody(args), Appended(args), Appended(args[..i]), Member(args[i]));
  }

  /** Member i and its comma follow the first i members in what the loop
      appends, and more text follows exactly when i is not the last. */
  lemma MemberInAppended(args: seq<Pair>, i: int)
    requires 0 <= i < |args|
    ensures var before, m := Appended(args[..i]), Member(args[i]);
            before + m + [','] <= Appended(args) && |before| == Sizes(args[..i])
            && (i + 1 < |args| <==> |before| + |m| + 1 < |Appended(args)|)
  {
    AppendedPrefix(args, i + 1);
    AppendedSnoc(args, i);
    AppendedLength(args[..i]);
    if i + 1 == |args| {
      assert args[..i + 1] == args;
    } else {
      AppendedPrefix(args, i + 2);
      AppendedSnoc(args, i + 1);
    }
  }

  /** With at least one pair the body is the opening brace, what the loop
      appended without its last comma, and the closing brace. */
  lemma BodyIsAppended(args: seq<Pair>)
    requires |args| > 0
    ensures var all := Appended(args);
            |all| > 0 && RequestBody(args) == ['{'] + all[..|all| - 1] + ['}']
  {
    AppendedIsJoin(args);
    var all := Appended(args);
    assert all[..|all| - 1] == Join(Members(args));
  }

  lemma AppendedSnoc(args: seq<Pair>, i: int)
    requires 0 <= i < |args|
    ensures Appended(args[..i + 1]) == Appended(args[..i]) + Member(args[i]) + [',']
  {
    assert args[..i + 1][..i] == args[..i];
  }

  /** The text between the braces is everything appended but the last
      comma; a member followed by its comma inside what was appended stands
      at the same place, shifted by the opening brace. */
  lemma Framed(body: string, all: string, before: string, m: string)
    requires |all| > 0 && body == ['{'] + all[..|all| - 1] + ['}']
    requires before + m + [','] <= all
    ensures 1 + |before| + |m| < |body| && body[1 + |before|..1 + |before| + |m|] == m
    ensures body[1 + |before| + |m|] == if |before| + |m| + 1 < |all| then ',' else '}'
  {
    var o := 1 + |before|;
    forall j | 0 <= j < |m|
      ensures body[o + j] == m[j]
    {
      assert body[o + j] == all[|before| + j] == (before + m + [','])[|before| + j];
    }
    assert body[o..o + |m|] == m;
    if |before| + |m| + 1 < |all| {
      assert body[o + |m|] == all[|before| + |m|] == (before + m + [','])[|before| + |m|];
    }
  }

  /** What the loop appended for the first n pairs is a prefix of what it
      appends for all of them. */
  lemma {:induction false} AppendedPrefix(args: seq<Pair>, n: int)
    requires 0 <= n <= |args|
    ensures Appended(args[..n]) <= Appended(args)
    decreases |args| - n
  {
    if n < |args| {
      AppendedPrefix(args, n + 1);
      assert args[..n + 1][..n] == args[..n];
    } else {
      assert args[..n] == args;
    }
  }
}
