/** The client side of the line protocol: a request is written as one line
    "STATUS key value", and a response line is split back into a
    `SimpleKVMessage`. */
module Communication {
  import opened Java
  import opened JavaText
  import opened Messages

  /** The value field as written on the wire: a null value is sent as the
      empty string. */
  function ValueField(value: JString): (field: string)
    ensures value.Some? ==> field == value.value
    ensures value.None? ==> field == ""
  {
    match value
    case None => ""
    case Some(v) => v
  }

  /** `formatMessage(status, key, value)`: the status name, the key (a null
      key reads "null", as string concatenation writes it) and the value
      field, separated by single spaces and ended by "\n". */
  function FormatMessage(status: StatusType, key: JString, value: JString): (message: string)
    ensures |message| >= 1 && message[|message| - 1] == '\n'
    ensures Free(message[..|message| - 1], LineBreaks)
        <==> Free(AsText(key), LineBreaks) && Free(ValueField(value), LineBreaks)
  {
    var line := status.Name() + " " + AsText(key) + " " + ValueField(value);
    NameHasNoSeparator(status);
    assert Free(status.Name() + " ", LineBreaks) by {
      FreeConcat(status.Name(), " ", LineBreaks);
    }
    FreeConcat(status.Name() + " ", AsText(key), LineBreaks);
    FreeConcat(status.Name() + " " + AsText(key), " ", LineBreaks);
    FreeConcat(status.Name() + " " + AsText(key) + " ", ValueField(value), LineBreaks);
    assert (line + "\n")[..|line|] == line;
    line + "\n"
  }

  /** A null value and an empty value are indistinguishable on the wire. */
  lemma FormatNullAsEmpty(status: StatusType, key: JString)
    ensures FormatMessage(status, key, None) == FormatMessage(status, key, Some(""))
  {
  }

  /** `parseMessage(response)`: null for a null or empty line and for a
      first token that names no status; otherwise the status, then the
      key and the value, each "" when the line stops short of it. The line
      is cut at no more than two spaces, so the value keeps any further
      spaces. */
  function ParseMessage(response: JString): (r: Option<KVMessage>)
    ensures response.None? || response == Some("") ==> r.None?
    ensures r.Some? ==> response.Some? && r.value.status.Name() <= response.value
    ensures r.Some? ==> r.value.key.Some? && r.value.value.Some?
    ensures r.Some? ==> Free(r.value.key.value, {' '})
  {
    match response
    case None => None
    case Some(line) =>
      if line == [] then None
      else
        var parts := SplitLimit(line, ' ', 3);
        match ValueOf(parts[0])
        case None => None
        case Some(status) =>
          assert parts[0] <= line by { SplitLimitFirst(line, ' ', 3); }
          var key := if |parts| > 1 then parts[1] else "";
          assert Free(key, {' '}) by {
            SplitLimitFree(line, ' ', 3);
            SplitLimitFreeLast(line, ' ', 3);
            FreeOfChar(key, ' ');
          }
          var value := if |parts| > 2 then parts[2] else "";
          Some(KVMessage(status, Some(key), Some(value)))
  }

  /** The first part of a split is a prefix of the string split. */
  lemma {:induction false} SplitLimitFirst(s: string, c: char, limit: nat)
    requires limit >= 1
    ensures SplitLimit(s, c, limit)[0] <= s
  {
    if limit > 1 && c in s {
      assert SplitLimit(s, c, limit)[0] == Cut(s, c).0;
    }
  }

  /** A line whose first token is no status name is rejected. */
  lemma ParseRejectsUnknownStatus(line: string)
    requires line != []
    requires forall s: StatusType :: s.Name() != SplitLimit(line, ' ', 3)[0]
    ensures ParseMessage(Some(line)).None?
  {
    ValueOfRejects(SplitLimit(line, ' ', 3)[0]);
  }

  /** A full line: the value is everything after the second space, spaces
      included. */
  lemma ParseFullLine(status: StatusType, key: string, value: string)
    requires Free(key, {' '})
    ensures ParseMessage(Some(status.Name() + " " + key + " " + value))
         == Some(KVMessage(status, Some(key), Some(value)))
  {
    var name := status.Name();
    var line := name + " " + key + " " + value;
    assert SplitLimit(line, ' ', 3) == [name, key, value] by {
      NameHasNoSeparator(status);
      SplitThreeFields(name, key, value);
    }
    ValueOfName(status);
  }

  /** A line of three space-separated fields, the first two without
      spaces, splits into exactly those fields. */
  lemma SplitThreeFields(a: string, b: string, rest: string)
    requires Free(a, {' '}) && Free(b, {' '})
    ensures SplitLimit(a + " " + b + " " + rest, ' ', 3) == [a, b, rest]
  {
    assert a + " " + b + " " + rest == a + [' '] + (b + [' '] + rest);
    SplitLimitCons(a, ' ', b + [' '] + rest, 3);
    SplitLimitCons(b, ' ', rest, 2);
  }

  /** A line holding only a status: key and value both come back as "". */
  lemma ParseStatusOnly(status: StatusType)
    ensures ParseMessage(Some(status.Name())) == Some(KVMessage(status, Some(""), Some("")))
  {
    NameHasNoSeparator(status);
    assert SplitLimit(status.Name(), ' ', 3) == [status.Name()];
    ValueOfName(status);
  }

  /** A line holding a status and a key: the value comes back as "". */
  lemma ParseStatusAndKey(status: StatusType, key: string)
    requires Free(key, {' '})
    ensures ParseMessage(Some(status.Name() + " " + key)) == Some(KVMessage(status, Some(key), Some("")))
  {
    var name := status.Name();
    NameHasNoSeparator(status);
    SplitLimitCons(name, ' ', key, 3);
    assert SplitLimit(key, ' ', 2) == [key];
    assert SplitLimit(name + " " + key, ' ', 3) == [name, key];
    ValueOfName(status);
  }

  /** What `formatMessage` writes, read back with `readLine` and parsed,
      is the message that was formatted, a null value turning into "",
      provided the key holds no space or line break and the value no line
      break. */
  lemma FormatParseRoundTrip(status: StatusType, key: string, value: JString)
    requires Free(key, {' '} + LineBreaks)
    requires Free(ValueField(value), LineBreaks)
    ensures ReadLines(FormatMessage(status, Some(key), value))
         == [status.Name() + " " + key + " " + ValueField(value)]
    ensures ParseMessage(Some(status.Name() + " " + key + " " + ValueField(value)))
         == Some(KVMessage(status, Some(key), Some(ValueField(value))))
  {
    var name := status.Name();
    var field := ValueField(value);
    NameHasNoSeparator(status);
    var line := name + " " + key + " " + field;
    assert Free(" ", LineBreaks);
    FreeConcat(name, " ", LineBreaks);
    FreeConcat(name + " ", key, LineBreaks);
    FreeConcat(name + " " + key, " ", LineBreaks);
    FreeConcat(name + " " + key + " ", field, LineBreaks);
    assert FormatMessage(status, Some(key), value) == line + "\n" + "";
    ReadLinesCons(line, "");
    ParseFullLine(status, key, field);
  }
}
