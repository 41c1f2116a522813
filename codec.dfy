/** The textual form of one log record. The repository writes records with
    serde_json; this module gives that encoding a concrete shape
    `{"action":"Set","key":"k","value":"v"}` (strings escaped for `"`, `\`
    and newline) and proves the two facts the log engine relies on: a
    serialized record contains no newline, and parsing it gives the record
    back. */
module Codec {
  import opened Wrappers

  /** The actions a command can carry. `NoAction` is serialized as "None". */
  datatype Action = Get | Set | Remove | NoAction

  /** One command: a logged mutation, or the payload of a request. */
  datatype Command = Command(action: Action, key: string, value: string)

  function ActionName(a: Action): (name: string)
    ensures ActionNamed(name) == Some(a)
  {
    match a
    case Get => "Get"
    case Set => "Set"
    case Remove => "Remove"
    case NoAction => "None"
  }

  function ActionNamed(name: string): Option<Action>
  {
    if name == "Get" then Some(Get)
    else if name == "Set" then Some(Set)
    else if name == "Remove" then Some(Remove)
    else if name == "None" then Some(NoAction)
    else None
  }

  /** JSON string escaping of one character. */
  function EscapeChar(c: char): (r: string)
    ensures '\n' !in r
  {
    if c == '"' then "\\\""
    else if c == '\\' then "\\\\"
    else if c == '\n' then "\\n"
    else [c]
  }

  function Escape(s: string): (r: string)
    ensures '\n' !in r
  {
    if s == [] then [] else EscapeChar(s[0]) + Escape(s[1..])
  }

  /** The character an escape sequence `\c` stands for. */
  function Unescaped(c: char): Option<char>
  {
    if c == '"' then Some('"')
    else if c == '\\' then Some('\\')
    else if c == 'n' then Some('\n')
    else None
  }

  /** Reads the body of a JSON string up to its closing quote: the decoded
      text and what follows the quote. */
  function ReadString(s: string): Option<(string, string)>
    decreases |s|
  {
    if s == [] then None
    else if s[0] == '"' then Some(([], s[1..]))
    else if s[0] == '\\' then
      if |s| < 2 then None
      else match (Unescaped(s[1]), ReadString(s[2..]))
        case (Some(c), Some((text, rest))) => Some(([c] + text, rest))
        case _ => None
    else match ReadString(s[1..])
      case Some((text, rest)) => Some(([s[0]] + text, rest))
      case None => None
  }

  const ActionField: string := "{\"action\":\""
  const KeyField: string := ",\"key\":\""
  const ValueField: string := ",\"value\":\""

  /** A field tag followed by a string: the decoded string and the rest. */
  function Field(tag: string, s: string): Option<(string, string)>
  {
    if tag <= s then ReadString(s[|tag|..]) else None
  }

  predicate IsWhitespace(c: char)
  {
    c == ' ' || c == '\t' || c == '\n' || c == '\r'
  }

  predicate IsBlank(s: string)
  {
    forall i :: 0 <= i < |s| ==> IsWhitespace(s[i])
  }

  function Serialize(c: Command): (s: string)
    ensures '\n' !in s
  {
    ActionField + Escape(ActionName(c.action)) + "\"" + KeyField + Escape(c.key) + "\""
      + ValueField + Escape(c.value) + "\"}"
  }

  /** Parses one record; trailing whitespace is accepted, as by serde_json. */
  function Parse(line: string): Option<Command>
  {
    match Field(ActionField, line)
    case None => None
    case Some((name, rest1)) =>
      match (ActionNamed(name), Field(KeyField, rest1))
      case (Some(action), Some((key, rest2))) =>
        (match Field(ValueField, rest2)
         case Some((value, rest3)) =>
           if rest3 != [] && rest3[0] == '}' && IsBlank(rest3[1..])
           then Some(Command(action, key, value))
           else None
         case None => None)
      case _ => None
  }

  lemma {:induction false} ReadEscaped(x: string, rest: string)
    ensures ReadString(Escape(x) + "\"" + rest) == Some((x, rest))
  {
    if x == [] {
      assert Escape(x) + "\"" + rest == ['"'] + rest;
    } else {
      var tail := Escape(x[1..]) + "\"" + rest;
      assert Escape(x) + "\"" + rest == EscapeChar(x[0]) + tail;
      ReadEscaped(x[1..], rest);
      assert [x[0]] + x[1..] == x;
      var s := EscapeChar(x[0]) + tail;
      if x[0] == '"' || x[0] == '\\' || x[0] == '\n' {
        assert s[2..] == tail;
      } else {
        assert s[1..] == tail;
      }
    }
  }

  /** A field tag followed by `u` leaves `u` to be read as a string. */
  lemma FieldTagged(tag: string, u: string)
    ensures Field(tag, tag + u) == ReadString(u)
  {
    assert (tag + u)[|tag|..] == u;
  }

  /** The concatenation shape of a serialized record, regrouped so that
      each field tag is followed by the rest of the line. */
  lemma Regroup(a1: string, e1: string, a2: string, e2: string, a3: string, e3: string,
                q: string, b: string, qb: string, t: string)
    requires qb == q + b
    ensures a1 + e1 + q + a2 + e2 + q + a3 + e3 + qb + t
         == a1 + (e1 + q + (a2 + (e2 + q + (a3 + (e3 + q + (b + t))))))
  {
  }

  /** Round trip: a serialized record, followed by anything, parses back to
      the record exactly when what follows is whitespace. */
  lemma {:induction false} ParseSerialize(c: Command, t: string)
    ensures Parse(Serialize(c) + t) == if IsBlank(t) then Some(c) else None
  {
    var rest3 := "}" + t;
    var rest2 := ValueField + (Escape(c.value) + "\"" + rest3);
    var rest1 := KeyField + (Escape(c.key) + "\"" + rest2);
    Regroup(ActionField, Escape(ActionName(c.action)), KeyField, Escape(c.key), ValueField, Escape(c.value),
            "\"", "}", "\"}", t);
    FieldTagged(ActionField, Escape(ActionName(c.action)) + "\"" + rest1);
    ReadEscaped(ActionName(c.action), rest1);
    FieldTagged(KeyField, Escape(c.key) + "\"" + rest2);
    ReadEscaped(c.key, rest2);
    FieldTagged(ValueField, Escape(c.value) + "\"" + rest3);
    ReadEscaped(c.value, rest3);
    assert rest3[1..] == t;
  }

  lemma ParseRoundTrip(c: Command)
    ensures Parse(Serialize(c)) == Some(c)
  {
    ParseSerialize(c, []);
    assert Serialize(c) + [] == Serialize(c);
  }

  lemma {:induction false} ReadStringExtend(s: string, t: string)
    requires ReadString(s).Some?
    ensures ReadString(s + t) == Some((ReadString(s).value.0, ReadString(s).value.1 + t))
    decreases |s|
  {
    if s[0] == '"' {
      assert (s + t)[1..] == s[1..] + t;
    } else if s[0] == '\\' {
      ReadStringExtend(s[2..], t);
      assert (s + t)[2..] == s[2..] + t;
    } else {
      ReadStringExtend(s[1..], t);
      assert (s + t)[1..] == s[1..] + t;
    }
  }

  lemma FieldExtend(tag: string, s: string, t: string)
    requires Field(tag, s).Some?
    ensures Field(tag, s + t) == Some((Field(tag, s).value.0, Field(tag, s).value.1 + t))
  {
    assert tag <= s + t;
    assert (s + t)[|tag|..] == s[|tag|..] + t;
    ReadStringExtend(s[|tag|..], t);
  }

  /** Whitespace after a record does not change what it parses to; this is
      why reading a record together with its newline gives the record. */
  lemma ParseExtend(line: string, t: string)
    requires Parse(line).Some? && IsBlank(t)
    ensures Parse(line + t) == Parse(line)
  {
    var (name, rest1) := Field(ActionField, line).value;
    FieldExtend(ActionField, line, t);
    var (key, rest2) := Field(KeyField, rest1).value;
    FieldExtend(KeyField, rest1, t);
    var (value, rest3) := Field(ValueField, rest2).value;
    FieldExtend(ValueField, rest2, t);
    assert (rest3 + t)[1..] == rest3[1..] + t;
  }
}
