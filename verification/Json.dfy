/** The part of JSON the dashboard uses: compact printing, and a reader that
    takes any document's text apart again. */
module Json {
  import opened Prelude
  import opened Decimal

  datatype Value =
    | Number(n: nat)
    | Text(s: string)
    | Flag(b: bool)
    | Null
    | List(items: seq<Value>)
    | Record(fields: seq<Field>)

  datatype Field = Field(key: string, value: Value)

  const QUOTE: char := '\"'

  // ---------------------------------------------------------------- printing

  function Quoted(s: string): string {
    [QUOTE] + s + [QUOTE]
  }

  function Print(v: Value): string
    decreases v, 0
  {
    match v
    case Number(n) => Numeral(n)
    case Text(s) => Quoted(s)
    case Flag(b) => if b then "true" else "false"
    case Null => "null"
    case List(items) => "[" + PrintItems(items) + "]"
    case Record(fields) => "{" + PrintFields(fields) + "}"
  }

  function PrintItems(items: seq<Value>): string
    decreases items, 2
  {
    if items == [] then "" else Print(items[0]) + PrintMore(items[1..])
  }

  function PrintFields(fields: seq<Field>): string
    decreases fields, 2
  {
    if fields == [] then "" else PrintField(fields[0]) + PrintMoreFields(fields[1..])
  }

  /** The items after the first, each with its comma. */
  function PrintMore(items: seq<Value>): string
    decreases items, 1
  {
    if items == [] then "" else "," + Print(items[0]) + PrintMore(items[1..])
  }

  function PrintField(f: Field): string
    decreases f, 0
  {
    Quoted(f.key) + ":" + Print(f.value)
  }

  function PrintMoreFields(fields: seq<Field>): string
    decreases fields, 1
  {
    if fields == [] then "" else "," + PrintField(fields[0]) + PrintMoreFields(fields[1..])
  }

  /** Strings and keys stand between double quotes, and a colon follows a key. */
  lemma QuotedForm(s: string, f: Field)
    ensures Print(Text(s)) == "\"" + s + "\""
    ensures PrintField(f) == "\"" + f.key + "\":" + Print(f.value)
  {
  }

  // ---------------------------------------------------------------- reading

  function Skip(s: string, prefix: string): Option<string> {
    if prefix <= s then Some(s[|prefix|..]) else None
  }

  /** The length of `s` up to its first quote. */
  function UpToQuote(s: string): (k: nat)
    ensures k <= |s|
  {
    if s == [] || s[0] == QUOTE then 0 else 1 + UpToQuote(s[1..])
  }

  /** A quoted string, from after its opening quote. */
  function ReadQuoted(s: string): (r: Option<(string, string)>)
    ensures r.Some? ==> |r.value.1| < |s|
  {
    var k := UpToQuote(s);
    if k == |s| then None else Some((s[..k], s[k + 1..]))
  }

  function Read(s: string): (r: Option<(Value, string)>)
    ensures r.Some? ==> |r.value.1| < |s|
    decreases |s|, 1
  {
    if s == [] then
      None
    else if s[0] == QUOTE then
      match ReadQuoted(s[1..])
      case None => None
      case Some((t, rest)) => Some((Text(t), rest))
    else if "true" <= s then
      Some((Flag(true), s[4..]))
    else if "false" <= s then
      Some((Flag(false), s[5..]))
    else if "null" <= s then
      Some((Null, s[4..]))
    else if s[0] == '[' then
      if "]" <= s[1..] then
        Some((List([]), s[2..]))
      else
        match Read(s[1..])
        case None => None
        case Some((first, rest)) =>
          var (more, after) := ReadMore(rest);
          if "]" <= after then Some((List([first] + more), after[1..])) else None
    else if s[0] == '{' then
      if "}" <= s[1..] then
        Some((Record([]), s[2..]))
      else
        match ReadField(s[1..])
        case None => None
        case Some((first, rest)) =>
          var (more, after) := ReadMoreFields(rest);
          if "}" <= after then Some((Record([first] + more), after[1..])) else None
    else
      match ReadNumber(s)
      case None => None
      case Some((n, rest)) => Some((Number(n), rest))
  }

  /** As many further items as there are. */
  function ReadMore(s: string): (r: (seq<Value>, string))
    ensures |r.1| <= |s|
    decreases |s|, 0
  {
    if !("," <= s) then
      ([], s)
    else
      match Read(s[1..])
      case None => ([], s)
      case Some((v, rest)) =>
        var (more, after) := ReadMore(rest);
        ([v] + more, after)
  }

  function ReadField(s: string): (r: Option<(Field, string)>)
    ensures r.Some? ==> |r.value.1| < |s|
    decreases |s|, 0
  {
    if s == [] || s[0] != QUOTE then
      None
    else
      match ReadQuoted(s[1..])
      case None => None
      case Some((key, rest)) =>
        if !(":" <= rest) then
          None
        else
          match Read(rest[1..])
          case None => None
          case Some((v, after)) => Some((Field(key, v), after))
  }

  function ReadMoreFields(s: string): (r: (seq<Field>, string))
    ensures |r.1| <= |s|
    decreases |s|, 0
  {
    if !("," <= s) then
      ([], s)
    else
      match ReadField(s[1..])
      case None => ([], s)
      case Some((f, rest)) =>
        var (more, after) := ReadMoreFields(rest);
        ([f] + more, after)
  }

  // ---------------------------------------------------------------- round trip

  /** No string in the document needs escaping. */
  predicate Plain(v: Value)
    decreases v, 0
  {
    match v
    case Text(s) => QUOTE !in s
    case List(items) => forall i | 0 <= i < |items| :: Plain(items[i])
    case Record(fields) => forall i | 0 <= i < |fields| :: PlainField(fields[i])
    case _ => true
  }

  predicate PlainField(f: Field)
    decreases f, 1
  {
    QUOTE !in f.key && Plain(f.value)
  }

  lemma {:induction false} UpToQuoteFinds(a: string, b: string)
    requires QUOTE !in a
    ensures UpToQuote(a + [QUOTE] + b) == |a|
  {
    if a != [] {
      assert (a + [QUOTE] + b)[1..] == a[1..] + [QUOTE] + b;
      UpToQuoteFinds(a[1..], b);
    }
  }

  lemma ReadsBackQuoted(t: string, rest: string)
    requires QUOTE !in t
    ensures (Quoted(t) + rest)[0] == QUOTE
    ensures ReadQuoted((Quoted(t) + rest)[1..]) == Some((t, rest))
  {
    UpToQuoteFinds(t, rest);
    var s := t + [QUOTE] + rest;
    assert (Quoted(t) + rest)[1..] == s;
    assert s[..|t|] == t && s[|t| + 1..] == rest;
  }

  /** Appending one item to a printed list appends its text, after a comma if it is not the first. */
  lemma {:induction false} PrintMoreSnoc(items: seq<Value>, v: Value)
    ensures PrintMore(items + [v]) == PrintMore(items) + ("," + Print(v))
  {
    if items == [] {
      assert [v][1..] == [];
    } else {
      assert (items + [v])[1..] == items[1..] + [v];
      PrintMoreSnoc(items[1..], v);
    }
  }

  lemma PrintItemsSnoc(items: seq<Value>, v: Value)
    ensures PrintItems(items + [v]) == PrintItems(items) + (if items == [] then "" else ",") + Print(v)
  {
    if items == [] {
      assert [v][1..] == [];
    } else {
      assert (items + [v])[1..] == items[1..] + [v];
      PrintMoreSnoc(items[1..], v);
    }
  }

  lemma {:induction false} PrintMoreFieldsSnoc(fields: seq<Field>, f: Field)
    ensures PrintMoreFields(fields + [f]) == PrintMoreFields(fields) + ("," + PrintField(f))
  {
    if fields == [] {
      assert [f][1..] == [];
    } else {
      assert (fields + [f])[1..] == fields[1..] + [f];
      PrintMoreFieldsSnoc(fields[1..], f);
    }
  }

  lemma PrintFieldsSnoc(fields: seq<Field>, f: Field)
    ensures PrintFields(fields + [f]) == PrintFields(fields) + (if fields == [] then "" else ",") + PrintField(f)
  {
    if fields == [] {
      assert [f][1..] == [];
    } else {
      assert (fields + [f])[1..] == fields[1..] + [f];
      PrintMoreFieldsSnoc(fields[1..], f);
    }
  }

  lemma Reassociate(a: string, b: string, c: string, d: string)
    ensures a + (b + c) + d == a + (b + (c + d))
  {
  }

  lemma AfterPrefix(p: string, s: string)
    ensures p <= p + s && (p + s)[|p|..] == s
  {
  }

  lemma ReadListStep(body: string, first: Value, tail: string, more: seq<Value>, rest: string)
    requires body != [] && body[0] != ']'
    requires Read(body) == Some((first, tail)) && ReadMore(tail) == (more, "]" + rest)
    ensures Read("[" + body) == Some((List([first] + more), rest))
  {
    AfterPrefix("[", body);
    AfterPrefix("]", rest);
  }

  lemma ReadRecordStep(body: string, first: Field, tail: string, more: seq<Field>, rest: string)
    requires body != [] && body[0] != '}'
    requires ReadField(body) == Some((first, tail)) && ReadMoreFields(tail) == (more, "}" + rest)
    ensures Read("{" + body) == Some((Record([first] + more), rest))
  {
    AfterPrefix("{", body);
    AfterPrefix("}", rest);
  }

  lemma ReadMoreStep(body: string, first: Value, tail: string, more: seq<Value>, rest: string)
    requires Read(body) == Some((first, tail)) && ReadMore(tail) == (more, rest)
    ensures ReadMore("," + body) == ([first] + more, rest)
  {
    AfterPrefix(",", body);
  }

  lemma ReadMoreFieldsStep(body: string, first: Field, tail: string, more: seq<Field>, rest: string)
    requires ReadField(body) == Some((first, tail)) && ReadMoreFields(tail) == (more, rest)
    ensures ReadMoreFields("," + body) == ([first] + more, rest)
  {
    AfterPrefix(",", body);
  }

  lemma ReadFieldStep(key: string, body: string, v: Value, rest: string)
    requires QUOTE !in key && Read(body) == Some((v, rest))
    ensures ReadField(Quoted(key) + (":" + body)) == Some((Field(key, v), rest))
  {
    ReadsBackQuoted(key, ":" + body);
    AfterPrefix(":", body);
  }

  /** Reading a document's text gives the document back and leaves what follows it. */
  lemma {:induction false} ReadsBack(v: Value, rest: string)
    requires Plain(v) && NoDigitNext(rest)
    ensures Read(Print(v) + rest) == Some((v, rest))
    decreases v, 1
  {
    match v
    case Number(n) => ReadsBackNumeral(n, rest);
    case Text(t) => ReadsBackQuoted(t, rest);
    case Flag(b) => ReadsBackFlag(b, rest);
    case Null => ReadsBackNull(rest);
    case List(items) => ReadsBackList(items, rest);
    case Record(fields) => ReadsBackRecord(fields, rest);
  }

  lemma ListText(items: seq<Value>, rest: string)
    requires items != []
    ensures Print(List(items)) + rest == "[" + (Print(items[0]) + (PrintMore(items[1..]) + ("]" + rest)))
  {
    Reassociate("[", Print(items[0]), PrintMore(items[1..]), "]" + rest);
  }

  lemma RecordText(fields: seq<Field>, rest: string)
    requires fields != []
    ensures Print(Record(fields)) + rest
            == "{" + (PrintField(fields[0]) + (PrintMoreFields(fields[1..]) + ("}" + rest)))
  {
    Reassociate("{", PrintField(fields[0]), PrintMoreFields(fields[1..]), "}" + rest);
  }

  lemma {:induction false} ReadsBackList(items: seq<Value>, rest: string)
    requires Plain(List(items))
    ensures Read(Print(List(items)) + rest) == Some((List(items), rest))
    decreases List(items), 0
  {
    if items == [] {
      AfterPrefix("[]", rest);
      assert Print(List(items)) + rest == "[]" + rest;
    } else {
      var tail := PrintMore(items[1..]) + ("]" + rest);
      var body := Print(items[0]) + tail;
      ListText(items, rest);
      NoDigitBeforeMore(items[1..], "]" + rest);
      ReadsBack(items[0], tail);
      StartsLikeValue(items[0]);
      ReadsBackMore(items[1..], "]" + rest);
      ReadListStep(body, items[0], tail, items[1..], rest);
      assert [items[0]] + items[1..] == items;
    }
  }

  lemma {:induction false} ReadsBackRecord(fields: seq<Field>, rest: string)
    requires Plain(Record(fields))
    ensures Read(Print(Record(fields)) + rest) == Some((Record(fields), rest))
    decreases Record(fields), 0
  {
    if fields == [] {
      AfterPrefix("{}", rest);
      assert Print(Record(fields)) + rest == "{}" + rest;
    } else {
      var tail := PrintMoreFields(fields[1..]) + ("}" + rest);
      var body := PrintField(fields[0]) + tail;
      RecordText(fields, rest);
      NoDigitBeforeMoreFields(fields[1..], "}" + rest);
      ReadsBackField(fields[0], tail);
      ReadsBackMoreFields(fields[1..], "}" + rest);
      ReadRecordStep(body, fields[0], tail, fields[1..], rest);
      assert [fields[0]] + fields[1..] == fields;
    }
  }

  lemma ReadsBackNumeral(n: nat, rest: string)
    requires NoDigitNext(rest)
    ensures Read(Numeral(n) + rest) == Some((Number(n), rest))
  {
    NumeralRoundTrip(n);
    ReadsBackNumber(n, rest);
    assert IsDigit((Numeral(n) + rest)[0]);
  }

  lemma ReadsBackFlag(b: bool, rest: string)
    ensures Read(Print(Flag(b)) + rest) == Some((Flag(b), rest))
  {
    AfterPrefix(if b then "true" else "false", rest);
    assert (Print(Flag(b)) + rest)[0] == if b then 't' else 'f';
  }

  lemma ReadsBackNull(rest: string)
    ensures Read("null" + rest) == Some((Null, rest))
  {
    AfterPrefix("null", rest);
    assert ("null" + rest)[0] == 'n';
  }

  lemma StartsLikeValue(v: Value)
    ensures Print(v) != [] && Print(v)[0] != ']'
  {
    if v.Number? {
      NumeralRoundTrip(v.n);
    }
  }

  lemma NoDigitBeforeMore(items: seq<Value>, rest: string)
    requires NoDigitNext(rest)
    ensures NoDigitNext(PrintMore(items) + rest)
  {
    if items == [] {
      assert PrintMore(items) + rest == rest;
    } else {
      assert (PrintMore(items) + rest)[0] == ',';
    }
  }

  lemma NoDigitBeforeMoreFields(fields: seq<Field>, rest: string)
    requires NoDigitNext(rest)
    ensures NoDigitNext(PrintMoreFields(fields) + rest)
  {
    if fields == [] {
      assert PrintMoreFields(fields) + rest == rest;
    } else {
      assert (PrintMoreFields(fields) + rest)[0] == ',';
    }
  }

  lemma PrintMoreHead(items: seq<Value>, rest: string)
    requires items != []
    ensures PrintMore(items) + rest == "," + (Print(items[0]) + (PrintMore(items[1..]) + rest))
  {
  }

  lemma PrintMoreFieldsHead(fields: seq<Field>, rest: string)
    requires fields != []
    ensures PrintMoreFields(fields) + rest == "," + (PrintField(fields[0]) + (PrintMoreFields(fields[1..]) + rest))
  {
  }

  lemma {:induction false} ReadsBackMore(items: seq<Value>, rest: string)
    requires forall i | 0 <= i < |items| :: Plain(items[i])
    requires rest != [] && rest[0] == ']'
    ensures ReadMore(PrintMore(items) + rest) == (items, rest)
    decreases items, 2
  {
    if items == [] {
      assert PrintMore(items) + rest == rest;
    } else {
      var tail := PrintMore(items[1..]) + rest;
      var body := Print(items[0]) + tail;
      PrintMoreHead(items, rest);
      NoDigitBeforeMore(items[1..], rest);
      ReadsBack(items[0], tail);
      ReadsBackMore(items[1..], rest);
      ReadMoreStep(body, items[0], tail, items[1..], rest);
      assert [items[0]] + items[1..] == items;
    }
  }

  lemma {:induction false} ReadsBackField(f: Field, rest: string)
    requires PlainField(f) && NoDigitNext(rest)
    ensures ReadField(PrintField(f) + rest) == Some((f, rest))
    decreases f, 2
  {
    var body := Print(f.value) + rest;
    assert PrintField(f) + rest == Quoted(f.key) + (":" + body);
    ReadsBack(f.value, rest);
    ReadFieldStep(f.key, body, f.value, rest);
  }

  lemma {:induction false} ReadsBackMoreFields(fields: seq<Field>, rest: string)
    requires forall i | 0 <= i < |fields| :: PlainField(fields[i])
    requires rest != [] && rest[0] == '}'
    ensures ReadMoreFields(PrintMoreFields(fields) + rest) == (fields, rest)
    decreases fields, 3
  {
    if fields == [] {
      assert PrintMoreFields(fields) + rest == rest;
    } else {
      var tail := PrintMoreFields(fields[1..]) + rest;
      var body := PrintField(fields[0]) + tail;
      PrintMoreFieldsHead(fields, rest);
      NoDigitBeforeMoreFields(fields[1..], rest);
      ReadsBackField(fields[0], tail);
      ReadsBackMoreFields(fields[1..], rest);
      ReadMoreFieldsStep(body, fields[0], tail, fields[1..], rest);
      assert [fields[0]] + fields[1..] == fields;
    }
  }
}
