/** The referee's text for the actions of one turn: one command per action, with its tag after
    it, and the commands of a turn joined with ` | `. A reader of commands that undoes the
    formatting shows that no information about a well-formed action is lost. */
module Codingame {
  import opened Wrappers
  import opened Traverse
  import opened Decimal
  import opened Model

  /** `formatActionIntent`: the command word, the pac's id and the intent's arguments,
      separated by spaces; `NULL` for any other action type. */
  function FormatActionIntent(action: Action): (r: string)
    ensures r == "NULL" <==> action.intent.Unknown?
  {
    match action.intent
    case Wait => "WAIT " + NatToString(action.pac)
    case Move(target) => "MOVE " + NatToString(action.pac) + " " + IntToString(target.x) + " " + IntToString(target.y)
    case Switch(form) => "SWITCH " + NatToString(action.pac) + " " + form
    case Speed => "SPEED " + NatToString(action.pac)
    case Unknown(_) => "NULL"
  }

  /** `formatAction`: the intent's command, then a space and the tag when there is a non-empty
      one. */
  function FormatAction(action: Action): (r: string)
    ensures FormatActionIntent(action) <= r
    ensures r != FormatActionIntent(action) <==> action.tag.Some? && action.tag.value != ""
  {
    var str := FormatActionIntent(action);
    if action.tag.Some? && action.tag.value != "" then str + " " + action.tag.value else str
  }

  /** The text written for a turn: the actions' commands joined with ` | `. */
  function FormatTurn(actions: seq<Action>): (r: string)
    ensures |actions| == 0 ==> r == ""
    ensures |actions| == 1 ==> r == FormatAction(actions[0])
    ensures |actions| > 1 ==> FormatAction(actions[0]) + " | " <= r
  {
    Join(seq(|actions|, i requires 0 <= i < |actions| => FormatAction(actions[i])), " | ")
  }

  /** `parts.join(sep)`. */
  function Join(parts: seq<string>, sep: string): string
    decreases |parts|
  {
    if |parts| == 0 then ""
    else if |parts| == 1 then parts[0]
    else parts[0] + sep + Join(parts[1..], sep)
  }

  /** The index of the first `c` in `s`. */
  function FirstIndex(s: string, c: char): (i: nat)
    requires c in s
    ensures i < |s| && s[i] == c && c !in s[..i]
  {
    if s[0] == c then 0 else
      assert c in s[1..] by { var k :| 0 <= k < |s| && s[k] == c; assert s[1..][k - 1] == c; }
      1 + FirstIndex(s[1..], c)
  }

  /** The pieces of `s` between occurrences of `c`, as `s.split(c)` gives them. */
  function Split(s: string, c: char): (parts: seq<string>)
    ensures |parts| > 0
    decreases |s|
  {
    if c !in s then [s]
    else
      var i := FirstIndex(s, c);
      [s[..i]] + Split(s[i + 1..], c)
  }

  /** Splitting text joined at a character none of the parts holds gives the parts back. */
  lemma {:induction false} SplitJoin(parts: seq<string>, c: char)
    requires |parts| > 0 && forall p :: p in parts ==> c !in p
    ensures Split(Join(parts, [c]), c) == parts
    decreases |parts|
  {
    if |parts| > 1 {
      var s := Join(parts, [c]);
      var rest := Join(parts[1..], [c]);
      assert s == parts[0] + [c] + rest;
      FirstIndexAfter(parts[0], c, rest);
      assert s[..|parts[0]|] == parts[0] && s[|parts[0]| + 1..] == rest;
      SplitJoin(parts[1..], c);
    }
  }

  /** The first `c` of `a + [c] + b`, when `a` has none, is the one after `a`. */
  lemma FirstIndexAfter(a: string, c: char, b: string)
    requires c !in a
    ensures c in a + [c] + b && FirstIndex(a + [c] + b, c) == |a|
  {
    var s := a + [c] + b;
    assert s[|a|] == c;
    assert s[..|a|] == a;
    FirstIndexUnique(s, c, |a|);
  }

  /** Joining the pieces of `s` at `c` gives `s` back. */
  lemma {:induction false} JoinSplit(s: string, c: char)
    ensures Join(Split(s, c), [c]) == s
    decreases |s|
  {
    if c in s {
      var i := FirstIndex(s, c);
      JoinSplit(s[i + 1..], c);
      assert s == s[..i] + [c] + s[i + 1..];
    }
  }

  /** Splitting `a + [c] + b` splits `a` and `b` apart. */
  lemma {:induction false} SplitAppend(a: string, c: char, b: string)
    ensures Split(a + [c] + b, c) == Split(a, c) + Split(b, c)
    decreases |a|
  {
    var s := a + [c] + b;
    if c !in a {
      FirstIndexAfter(a, c, b);
      assert s[..|a|] == a && s[|a| + 1..] == b;
      assert Split(a, c) == [a];
      assert Split(s, c) == [a] + Split(b, c);
    } else {
      var i := FirstIndex(a, c);
      assert s[i] == c && c !in s[..i] by { assert s[..i] == a[..i]; }
      assert FirstIndex(s, c) == i by { FirstIndexUnique(s, c, i); }
      assert s[..i] == a[..i];
      assert s[i + 1..] == a[i + 1..] + [c] + b;
      SplitAppend(a[i + 1..], c, b);
      var tail := Split(a[i + 1..], c) + Split(b, c);
      assert Split(s, c) == [a[..i]] + tail;
      assert Split(a, c) + Split(b, c) == [a[..i]] + tail;
    }
  }

  /** The first `c` is the only `c` with none before it. */
  lemma FirstIndexUnique(s: string, c: char, i: nat)
    requires i < |s| && s[i] == c && c !in s[..i]
    ensures FirstIndex(s, c) == i
  {
    var j := FirstIndex(s, c);
    assert forall k :: 0 <= k < i ==> s[k] != c by { assert forall k :: 0 <= k < i ==> s[..i][k] == s[k]; }
    assert forall k :: 0 <= k < j ==> s[k] != c by { assert forall k :: 0 <= k < j ==> s[..j][k] == s[k]; }
  }

  /** The number of words a command of this word takes, its own included; none for any other. */
  function Arity(word: string): nat {
    if word == "WAIT" || word == "SPEED" then 2
    else if word == "SWITCH" then 3
    else if word == "MOVE" then 4
    else 0
  }

  /** Reads a command's words back into a pac id and an intent. */
  function ParseIntent(words: seq<string>): Option<(nat, Intent)> {
    if |words| < 2 || !(|words[1]| > 0 && AllDigits(words[1])) then None
    else
      var pac := ParseNat(words[1]);
      if words[0] == "WAIT" && |words| == 2 then Some((pac, Wait))
      else if words[0] == "SPEED" && |words| == 2 then Some((pac, Speed))
      else if words[0] == "SWITCH" && |words| == 3 then Some((pac, Switch(words[2])))
      else if words[0] == "MOVE" && |words| == 4 then
        match (ParseInt(words[2]), ParseInt(words[3]))
        case (Some(x), Some(y)) => Some((pac, Move(Vec(x, y))))
        case _ => None
      else None
  }

  /** Reads a formatted action back: the command's words and then, if any words are left,
      the tag they make up. */
  function ParseAction(s: string): Option<Action> {
    var words := Split(s, ' ');
    var n := Arity(words[0]);
    if n == 0 || |words| < n then None
    else
      match ParseIntent(words[..n])
      case None => None
      case Some((pac, intent)) =>
        Some(Action(pac, intent, if |words| == n then None else Some(Join(words[n..], " "))))
  }

  /** An action the referee understands: a known type, and a switch form without spaces. */
  predicate WellFormed(action: Action) {
    && !action.intent.Unknown?
    && (action.intent.Switch? ==> ' ' !in action.intent.form)
  }

  /** The words of a well-formed action's command. */
  function IntentWords(action: Action): (words: seq<string>)
    requires WellFormed(action)
    ensures |words| > 0 && |words| == Arity(words[0]) && forall w :: w in words ==> ' ' !in w
  {
    var pac := NatToString(action.pac);
    assert ' ' !in pac by { assert forall k :: 0 <= k < |pac| ==> IsDigit(pac[k]); }
    match action.intent
    case Wait => ["WAIT", pac]
    case Move(target) => ["MOVE", pac, IntToString(target.x), IntToString(target.y)]
    case Switch(form) => ["SWITCH", pac, form]
    case Speed => ["SPEED", pac]
  }

  /** The command of a well-formed action is its words joined with spaces, and they read back
      as the action's pac and intent. */
  lemma IntentReadsBack(action: Action)
    requires WellFormed(action)
    ensures FormatActionIntent(action) == Join(IntentWords(action), " ")
    ensures ParseIntent(IntentWords(action)) == Some((action.pac, action.intent))
  {
    var pac := NatToString(action.pac);
    ParseNatToString(action.pac);
    match action.intent
    case Wait =>
      assert Join([pac], " ") == pac;
    case Speed =>
      assert Join([pac], " ") == pac;
    case Switch(form) =>
      assert Join([form], " ") == form;
      assert Join([pac, form], " ") == pac + " " + form;
    case Move(target) =>
      MoveReadsBack(action.pac, target);
  }

  /** `IntentReadsBack` for a move. */
  lemma MoveReadsBack(id: nat, target: Vec)
    ensures FormatActionIntent(Action(id, Move(target), None)) == Join(IntentWords(Action(id, Move(target), None)), " ")
    ensures ParseIntent(IntentWords(Action(id, Move(target), None))) == Some((id, Move(target)))
  {
    var pac, x, y := NatToString(id), IntToString(target.x), IntToString(target.y);
    ParseNatToString(id);
    ParseIntToString(target.x);
    ParseIntToString(target.y);
    assert IntentWords(Action(id, Move(target), None)) == ["MOVE", pac, x, y];
    assert Join([y], " ") == y;
    assert Join([x, y], " ") == x + " " + y;
    assert Join([pac, x, y], " ") == pac + " " + (x + " " + y);
    assert Join(["MOVE", pac, x, y], " ") == "MOVE" + " " + (pac + " " + (x + " " + y));
  }

  /** Text whose words start with a command and its arguments, and go on with the words of a
      tag if there is one, reads back as that command and tag. */
  lemma ReadsBackWords(s: string, words: seq<string>, pac: nat, intent: Intent, tag: Option<string>)
    requires |words| > 0 && |words| == Arity(words[0]) && ParseIntent(words) == Some((pac, intent))
    requires tag.None? ==> Split(s, ' ') == words
    requires tag.Some? ==> Split(s, ' ') == words + Split(tag.value, ' ')
    ensures ParseAction(s) == Some(Action(pac, intent, tag))
  {
    var all := Split(s, ' ');
    assert all[..|words|] == words;
    if tag.Some? {
      assert all[|words|..] == Split(tag.value, ' ');
      JoinSplit(tag.value, ' ');
    }
  }

  /** `ParseAction` undoes `formatAction` for every well-formed action, where an empty tag
      reads back as none, as `formatAction` leaves it out; an action of any other type is
      written `NULL`, which reads back as nothing. */
  lemma FormatActionReadsBack(action: Action)
    ensures WellFormed(action) ==>
      ParseAction(FormatAction(action)) ==
        Some(action.(tag := if action.tag.Some? && action.tag.value != "" then action.tag else None))
    ensures action.intent.Unknown? ==> ParseAction(FormatAction(action)).None?
  {
    var intent := FormatActionIntent(action);
    var tagged := action.tag.Some? && action.tag.value != "";
    var tag := if tagged then Some(action.tag.value) else None;
    if tagged {
      SplitAppend(intent, ' ', action.tag.value);
    }
    if WellFormed(action) {
      var words := IntentWords(action);
      IntentReadsBack(action);
      SplitJoin(words, ' ');
      ReadsBackWords(FormatAction(action), words, action.pac, action.intent, tag);
      assert action.(tag := tag) == Action(action.pac, action.intent, tag);
    } else if action.intent.Unknown? {
      assert ' ' !in intent;
      assert Split(FormatAction(action), ' ')[0] == "NULL";
    }
  }

  /** The number of times `c` occurs in `s`. */
  function Count(s: string, c: char): nat
    decreases |s|
  {
    if |s| == 0 then 0 else Count(s[..|s| - 1], c) + (if s[|s| - 1] == c then 1 else 0)
  }

  lemma {:induction false} CountAppend(a: string, b: string, c: char)
    ensures Count(a + b, c) == Count(a, c) + Count(b, c)
    decreases |b|
  {
    if |b| > 0 {
      assert (a + b)[..|a + b| - 1] == a + b[..|b| - 1];
      CountAppend(a, b[..|b| - 1], c);
    } else {
      assert a + b == a;
    }
  }

  lemma {:induction false} CountNone(s: string, c: char)
    requires c !in s
    ensures Count(s, c) == 0
    decreases |s|
  {
    if |s| > 0 {
      assert c !in s[..|s| - 1] by { assert forall k :: 0 <= k < |s| - 1 ==> s[..|s| - 1][k] == s[k]; }
      CountNone(s[..|s| - 1], c);
    }
  }

  /** With no `|` inside the parts, their ` | `-join has one bar fewer than parts. */
  lemma {:induction false} JoinBars(parts: seq<string>)
    requires forall p :: p in parts ==> '|' !in p
    ensures |parts| > 0 ==> Count(Join(parts, " | "), '|') == |parts| - 1
    ensures |parts| == 0 ==> Join(parts, " | ") == ""
    decreases |parts|
  {
    if |parts| == 1 {
      CountNone(parts[0], '|');
    } else if |parts| > 1 {
      JoinBars(parts[1..]);
      CountNone(parts[0], '|');
      CountAppend(parts[0], " | ", '|');
      CountAppend(parts[0] + " | ", Join(parts[1..], " | "), '|');
      assert Count(" | ", '|') == 1 by {
        assert " | "[..2] == " |" && " |"[..1] == " " && " "[..0] == "";
      }
    }
  }

  /** The text of a turn has one command per action: when no tag or form holds a `|`, the bars that
      separate the commands number one fewer than the actions, and a turn with no actions is
      empty. */
  lemma TurnCommands(actions: seq<Action>)
    requires forall a :: a in actions && a.tag.Some? ==> '|' !in a.tag.value
    requires forall a :: a in actions && a.intent.Switch? ==> '|' !in a.intent.form
    ensures |actions| > 0 ==> Count(FormatTurn(actions), '|') == |actions| - 1
    ensures |actions| == 0 ==> FormatTurn(actions) == ""
  {
    var parts := seq(|actions|, i requires 0 <= i < |actions| => FormatAction(actions[i]));
    forall p | p in parts ensures '|' !in p {
      var i :| 0 <= i < |parts| && parts[i] == p;
      NoBar(actions[i]);
    }
    JoinBars(parts);
  }

  /** A command holds a `|` only inside its tag or its form. */
  lemma NoBar(action: Action)
    requires action.tag.Some? ==> '|' !in action.tag.value
    requires action.intent.Switch? ==> '|' !in action.intent.form
    ensures '|' !in FormatAction(action)
  {
    var pac := NatToString(action.pac);
    assert '|' !in pac by { assert forall k :: 0 <= k < |pac| ==> IsDigit(pac[k]); }
    assert '|' !in " ";
    match action.intent
    case Wait => assert '|' !in "WAIT ";
    case Speed => assert '|' !in "SPEED ";
    case Switch(form) => assert '|' !in "SWITCH ";
    case Unknown(_) => assert '|' !in "NULL";
    case Move(target) =>
      assert '|' !in "MOVE ";
      IntTextHasNoBar(target.x);
      IntTextHasNoBar(target.y);
  }

  /** A number's text holds digits and at most a minus sign. */
  lemma IntTextHasNoBar(i: int)
    ensures '|' !in IntToString(i)
  {
    var digits := NatToString(if i < 0 then -i else i);
    assert '|' !in digits by { assert forall k :: 0 <= k < |digits| ==> IsDigit(digits[k]); }
    assert IntToString(i) == if i < 0 then "-" + digits else digits;
  }
}
