/** Writing symbol values to a .config file and reading them back: sym_escape_string_value
    (support/kconfig/symbol.c:915-956), kconfig_print_symbol, the line handling of conf_read_simple and
    conf_set_sym_val (support/kconfig/confdata.c:119-187, 310-375, 480-501). */
module ConfText {
  import opened KExpr

  // ---------------------------------------------------------------------------------------------------------
  // Escaping
  // ---------------------------------------------------------------------------------------------------------

  predicate IsSpecial(c: char) {
    c == '"' || c == '\\'
  }

  function Escape(s: string): string {
    if s == [] then []
    else (if IsSpecial(s[0]) then ['\\', s[0]] else [s[0]]) + Escape(s[1..])
  }

  function Specials(s: string): nat {
    if s == [] then 0 else Specials(s[1..]) + if IsSpecial(s[0]) then 1 else 0
  }

  lemma {:induction false} EscapeAppend(a: string, b: string)
    ensures Escape(a + b) == Escape(a) + Escape(b)
    ensures Specials(a + b) == Specials(a) + Specials(b)
  {
    if a == [] {
      assert a + b == b;
    } else {
      assert (a + b)[1..] == a[1..] + b;
      EscapeAppend(a[1..], b);
    }
  }

  lemma {:induction false} EscapePlain(s: string)
    requires forall k :: 0 <= k < |s| ==> !IsSpecial(s[k])
    ensures Escape(s) == s && Specials(s) == 0
  {
    if s != [] {
      EscapePlain(s[1..]);
    }
  }

  /** strcspn for the two special characters: the length of the plain stretch at the start. */
  method PlainStretch(s: string) returns (l: nat)
    ensures l <= |s| && (forall k :: 0 <= k < l ==> !IsSpecial(s[k])) && (l < |s| ==> IsSpecial(s[l]))
  {
    l := 0;
    while l < |s| && !IsSpecial(s[l])
      invariant l <= |s| && forall k :: 0 <= k < l ==> !IsSpecial(s[k])
    {
      l := l + 1;
    }
  }

  /** The first pass of the escaper: the room needed for the quotes, the escapes and the closing NUL. */
  method MeasureEscaped(s: string) returns (reslen: nat)
    ensures reslen == |s| + 3 + Specials(s)
  {
    reslen := |s| + 2 + 1;
    var p := 0;
    while true
      invariant 0 <= p <= |s| && reslen == |s| + 3 + Specials(s[..p])
      decreases |s| - p
    {
      var l := PlainStretch(s[p..]);
      StretchStep(s, p, l);
      p := p + l;
      if p == |s| {
        break;
      }
      SpecialStep(s, p);
      reslen, p := reslen + 1, p + 1;
    }
    assert s[..p] == s;
  }

  /** The second pass copies stretch by stretch. */
  method CopyEscaped(s: string) returns (res: string)
    ensures res == Escape(s)
  {
    res := "";
    var p := 0;
    while true
      invariant 0 <= p <= |s| && res == Escape(s[..p])
      decreases |s| - p
    {
      var l := PlainStretch(s[p..]);
      StretchStep(s, p, l);
      res := res + s[p..p + l];
      p := p + l;
      if p == |s| {
        break;
      }
      SpecialStep(s, p);
      res := res + ("\\" + [s[p]]);
      p := p + 1;
    }
    assert s[..p] == s;
  }

  /** The escaper; the buffer it allocates has exactly the room needed, the closing NUL included. */
  method EscapeStringValue(s: string) returns (res: string, reslen: nat)
    ensures res == "\"" + Escape(s) + "\""
    ensures reslen == |res| + 1
  {
    reslen := MeasureEscaped(s);
    var body := CopyEscaped(s);
    res := "\"" + body + "\"";
    EscapeLength(s);
  }

  lemma StretchStep(s: string, p: nat, l: nat)
    requires p + l <= |s| && forall k :: 0 <= k < l ==> !IsSpecial(s[p..][k])
    ensures Escape(s[..p + l]) == Escape(s[..p]) + s[p..p + l] && Specials(s[..p + l]) == Specials(s[..p])
  {
    var plain := s[p..p + l];
    assert s[..p + l] == s[..p] + plain;
    EscapeAppend(s[..p], plain);
    assert forall k :: 0 <= k < l ==> plain[k] == s[p..][k];
    EscapePlain(plain);
  }

  lemma SpecialStep(s: string, p: nat)
    requires p < |s| && IsSpecial(s[p])
    ensures Escape(s[..p + 1]) == Escape(s[..p]) + ("\\" + [s[p]])
    ensures Specials(s[..p + 1]) == Specials(s[..p]) + 1
  {
    assert s[..p + 1] == s[..p] + [s[p]];
    EscapeAppend(s[..p], [s[p]]);
    assert [s[p]][1..] == [];
  }

  lemma {:induction false} EscapeLength(s: string)
    ensures |Escape(s)| == |s| + Specials(s)
  {
    if s != [] {
      EscapeLength(s[1..]);
    }
  }

  // ---------------------------------------------------------------------------------------------------------
  // Unescaping
  // ---------------------------------------------------------------------------------------------------------

  /** The text of a string up to its closing quote, if there is one: a backslash stands for the character after
      it, whatever that is. */
  function Unquote(s: string): Option<string> {
    if s == [] then None
    else if s[0] == '"' then Some([])
    else if s[0] == '\\' then
      if |s| == 1 then None
      else
        var rest := Unquote(s[2..]);
        if rest.Some? then Some([s[1]] + rest.value) else None
    else
      var rest := Unquote(s[1..]);
      if rest.Some? then Some([s[0]] + rest.value) else None
  }

  function Prepend(a: string, b: Option<string>): Option<string> {
    if b.Some? then Some(a + b.value) else None
  }

  lemma PrependNothing(b: Option<string>)
    ensures Prepend([], b) == b
  {
    if b.Some? {
      assert [] + b.value == b.value;
    }
  }

  /** The loop of conf_set_sym_val, which deletes backslashes from the line in place and cuts it at the quote. */
  method UnquoteInPlace(line: string) returns (r: Option<string>)
    ensures r == Unquote(line)
  {
    var p, p2 := line, 0;
    assert p[..p2] == [] && p[p2..] == line;
    PrependNothing(Unquote(line));
    while true
      invariant 0 <= p2 <= |p| && Unquote(line) == Prepend(p[..p2], Unquote(p[p2..]))
      decreases |p| - p2
    {
      var l := PlainStretch(p[p2..]);
      SkipAt(p, p2, l);
      p2 := p2 + l;
      if p2 == |p| {
        return None;
      }
      if p[p2] == '"' {
        assert p[..p2] + [] == p[..p2];
        return Some(p[..p2]);
      }
      if p2 + 1 == |p| {
        // Only the closing NUL moves up; the next search starts at its old place and finds nothing.
        return None;
      }
      DropAt(p, p2);
      p := p[..p2] + p[p2 + 1..];
      p2 := p2 + 1;
    }
  }

  lemma SkipAt(p: string, p2: nat, l: nat)
    requires p2 + l <= |p| && forall k :: 0 <= k < l ==> !IsSpecial(p[p2..][k])
    ensures Prepend(p[..p2], Unquote(p[p2..])) == Prepend(p[..p2 + l], Unquote(p[p2 + l..]))
  {
    SkipPlain(p[..p2], p[p2..], l);
    assert p[..p2] + p[p2..][..l] == p[..p2 + l] && p[p2..][l..] == p[p2 + l..];
  }

  lemma DropAt(p: string, p2: nat)
    requires p2 + 1 < |p| && p[p2] == '\\'
    ensures var q := p[..p2] + p[p2 + 1..];
            Prepend(p[..p2], Unquote(p[p2..])) == Prepend(q[..p2 + 1], Unquote(q[p2 + 1..]))
  {
    var q := p[..p2] + p[p2 + 1..];
    DropBackslash(p[..p2], p[p2..]);
    assert q[..p2 + 1] == p[..p2] + [p[p2..][1]] && q[p2 + 1..] == p[p2..][2..];
  }

  lemma DropBackslash(done: string, s: string)
    requires |s| >= 2 && s[0] == '\\'
    ensures Prepend(done, Unquote(s)) == Prepend(done + [s[1]], Unquote(s[2..]))
  {
    if Unquote(s[2..]).Some? {
      assert done + ([s[1]] + Unquote(s[2..]).value) == done + [s[1]] + Unquote(s[2..]).value;
    }
  }

  lemma {:induction false} SkipPlain(done: string, s: string, l: nat)
    requires l <= |s| && forall k :: 0 <= k < l ==> !IsSpecial(s[k])
    ensures Prepend(done, Unquote(s)) == Prepend(done + s[..l], Unquote(s[l..]))
    decreases l
  {
    if l == 0 {
      assert s[l..] == s && done + s[..l] == done;
    } else {
      SkipPlain(done + [s[0]], s[1..], l - 1);
      assert s[1..][l - 1..] == s[l..];
      assert done + [s[0]] + s[1..][..l - 1] == done + s[..l];
      if Unquote(s).Some? {
        assert done + ([s[0]] + Unquote(s[1..]).value) == done + [s[0]] + Unquote(s[1..]).value;
      }
    }
  }

  /** Unescaping undoes escaping, for every string. */
  lemma {:induction false} UnquoteEscape(s: string, rest: string)
    ensures Unquote(Escape(s) + "\"" + rest) == Some(s)
  {
    var text := Escape(s) + "\"" + rest;
    if s == [] {
      assert text == ['"'] + rest;
    } else {
      UnquoteEscape(s[1..], rest);
      var tail := Escape(s[1..]) + "\"" + rest;
      if IsSpecial(s[0]) {
        assert text == ['\\', s[0]] + tail;
        assert text[0] == '\\' && text[1] == s[0] && text[2..] == tail;
      } else {
        assert text == [s[0]] + tail;
        assert text[0] == s[0] && text[1..] == tail;
      }
      assert [s[0]] + s[1..] == s;
    }
  }

  // ---------------------------------------------------------------------------------------------------------
  // Values and lines
  // ---------------------------------------------------------------------------------------------------------

  datatype Value = TriValue(tri: Tri) | TextValue(text: string)

  predicate IsDigit(c: char) {
    '0' <= c <= '9'
  }

  predicate IsHexDigit(c: char) {
    IsDigit(c) || 'a' <= c <= 'f' || 'A' <= c <= 'F'
  }

  predicate AllDigits(s: string) {
    forall k :: 0 <= k < |s| ==> IsDigit(s[k])
  }

  predicate AllHexDigits(s: string) {
    forall k :: 0 <= k < |s| ==> IsHexDigit(s[k])
  }

  /** sym_string_valid for the types whose values are text. */
  predicate StringValid(ty: SymType, s: string) {
    match ty
    case Str => true
    case IntNum =>
      var d := if s != [] && s[0] == '-' then s[1..] else s;
      d != [] && AllDigits(d) && (d[0] == '0' ==> |d| == 1)
    case Hex =>
      var d := if |s| >= 2 && s[0] == '0' && (s[1] == 'x' || s[1] == 'X') then s[2..] else s;
      d != [] && AllHexDigits(d)
    case _ => false
  }

  /** A value a symbol of the type can have, and that fits on a line. */
  predicate Writable(ty: SymType, v: Value) {
    match ty
    case Boolean => v.TriValue? && v.tri != MOD
    case Tristate => v.TriValue?
    case Str => v.TextValue? && '\n' !in v.text
    case IntNum => v.TextValue? && StringValid(ty, v.text)
    case Hex => v.TextValue? && StringValid(ty, v.text)
    case Unknown => false
  }

  /** The text of a value; strings are escaped. */
  function ValueText(ty: SymType, v: Value): string {
    if v.TriValue? then TriText(v.tri) else if ty == Str then "\"" + Escape(v.text) + "\"" else v.text
  }

  /** conf_write_symbol and kconfig_print_symbol: n is written as a comment. */
  function PrintSymbol(prefix: string, name: string, ty: SymType, v: Value): string {
    if v == TriValue(NO) then "# " + prefix + name + " is not set\n"
    else prefix + name + "=" + ValueText(ty, v) + "\n"
  }

  /** strchr, as a position; the length of the string if there is none. */
  function Find(s: string, c: char): (k: nat)
    ensures k <= |s| && c !in s[..k] && (k < |s| ==> s[k] == c)
  {
    if s == [] then 0
    else if s[0] == c then 0
    else
      var k := Find(s[1..], c);
      assert s[..k + 1] == [s[0]] + s[1..][..k];
      k + 1
  }

  lemma {:induction false} FindFirst(a: string, c: char, b: string)
    requires c !in a
    ensures Find(a + [c] + b, c) == |a|
  {
    var s := a + [c] + b;
    if a != [] {
      FindFirst(a[1..], c, b);
      assert s[1..] == a[1..] + [c] + b;
    }
  }

  /** What a line says: a symbol is unset or assigned a text, or there is nothing to read. */
  datatype Line = Unset(name: string) | Assigned(name: string, text: string) | Skipped

  const NOT_SET := "is not set"

  /** The line handling of conf_read_simple. */
  function ParseLine(prefix: string, line: string): Line {
    if line != [] && line[0] == '#' then
      if |line| < 2 || !(prefix <= line[2..]) then Skipped
      else
        var rest := line[2 + |prefix|..];
        var k := Find(rest, ' ');
        if k < |rest| && NOT_SET <= rest[k + 1..] then Unset(rest[..k]) else Skipped
    else if prefix <= line then
      var rest := line[|prefix|..];
      var k := Find(rest, '=');
      if k == |rest| then Skipped else Assigned(rest[..k], ChopLine(rest[k + 1..]))
    else Skipped
  }

  /** The text up to the end of the line, without a carriage return before it. */
  function ChopLine(s: string): string {
    var k := Find(s, '\n');
    if k < |s| && k > 0 && s[k - 1] == '\r' then s[..k - 1] else s[..k]
  }

  /** conf_set_sym_val for a symbol of known type: a value is stored, or the text is refused, or (a string without
      its opening quote) passed over. */
  datatype Outcome = Stored(value: Value) | Refused | PassedOver

  function SetSymVal(ty: SymType, p: string): Outcome {
    match ty
    case Tristate => if p != [] && p[0] == 'm' then Stored(TriValue(MOD)) else SetBoolean(p)
    case Boolean => SetBoolean(p)
    case Str =>
      if p == [] || p[0] != '"' then PassedOver
      else
        var text := Unquote(p[1..]);
        if text.Some? then Stored(TextValue(text.value)) else Refused
    case IntNum => if StringValid(ty, p) then Stored(TextValue(p)) else Refused
    case Hex => if StringValid(ty, p) then Stored(TextValue(p)) else Refused
    case Unknown => PassedOver
  }

  function SetBoolean(p: string): Outcome {
    if p != [] && p[0] == 'y' then Stored(TriValue(YES))
    else if p != [] && p[0] == 'n' then Stored(TriValue(NO))
    else Refused
  }

  function ReadLine(prefix: string, types: string -> SymType, line: string): Option<(string, Outcome)> {
    match ParseLine(prefix, line)
    case Skipped => None
    case Unset(name) =>
      Some((name, if types(name) == Boolean || types(name) == Tristate then Stored(TriValue(NO)) else PassedOver))
    case Assigned(name, text) => Some((name, SetSymVal(types(name), text)))
  }

  /** Names and prefixes consist of characters that do not interfere with the line format. */
  predicate IsName(s: string) {
    forall k :: 0 <= k < |s| ==> s[k] !in {' ', '=', '#', '\n'}
  }

  /** Reading a line that was written gives back the symbol and exactly its value, for every type. */
  lemma LineRoundTrip(prefix: string, types: string -> SymType, name: string, v: Value)
    requires IsName(prefix) && IsName(name) && Writable(types(name), v)
    ensures ReadLine(prefix, types, PrintSymbol(prefix, name, types(name), v)) == Some((name, Stored(v)))
  {
    if v == TriValue(NO) {
      UnsetRoundTrip(prefix, name);
    } else {
      var text := ValueText(types(name), v);
      TextIsPlain(types(name), v);
      AssignedRoundTrip(prefix, name, text);
      SetRoundTrip(types(name), v);
    }
  }

  lemma SetRoundTrip(ty: SymType, v: Value)
    requires Writable(ty, v) && v != TriValue(NO)
    ensures SetSymVal(ty, ValueText(ty, v)) == Stored(v)
  {
    if ty == Str {
      var text := ValueText(ty, v);
      assert text[0] == '"' && text[1..] == Escape(v.text) + "\"" + [];
      UnquoteEscape(v.text, []);
    }
  }

  lemma UnsetRoundTrip(prefix: string, name: string)
    requires IsName(prefix) && IsName(name)
    ensures ParseLine(prefix, "# " + prefix + name + " is not set\n") == Unset(name)
  {
    var line := "# " + prefix + name + " is not set\n";
    var tail := "is not set\n";
    assert line[2..] == prefix + (name + [' '] + tail);
    var rest := line[2 + |prefix|..];
    assert rest == name + [' '] + tail;
    FindFirst(name, ' ', tail);
    assert rest[|name| + 1..] == tail && rest[..|name|] == name;
    assert tail[..10] == NOT_SET;
  }

  lemma ParseAssigned(prefix: string, name: string, tail: string, line: string)
    requires line == prefix + (name + ['='] + tail) && line[0] != '#' && '=' !in name
    ensures ParseLine(prefix, line) == Assigned(name, ChopLine(tail))
  {
    var rest := line[|prefix|..];
    assert rest == name + ['='] + tail;
    FindFirst(name, '=', tail);
    assert rest[|name| + 1..] == tail && rest[..|name|] == name;
  }

  lemma ChopWhole(text: string)
    requires '\n' !in text && (text == [] || text[|text| - 1] != '\r')
    ensures ChopLine(text + ['\n']) == text
  {
    FindFirst(text, '\n', []);
    assert text + ['\n'] + [] == text + ['\n'];
  }

  lemma AssignedRoundTrip(prefix: string, name: string, text: string)
    requires IsName(prefix) && IsName(name)
    requires '\n' !in text && (text == [] || text[|text| - 1] != '\r')
    ensures ParseLine(prefix, prefix + name + "=" + text + "\n") == Assigned(name, text)
  {
    var line := prefix + name + "=" + text + "\n";
    var tail := text + ['\n'];
    assert line == prefix + (name + ['='] + tail);
    assert line[0] == if prefix != [] then prefix[0] else if name != [] then name[0] else '=';
    ParseAssigned(prefix, name, tail, line);
    ChopWhole(text);
  }

  /** The text of a value neither contains a line feed nor ends in a carriage return. */
  lemma TextIsPlain(ty: SymType, v: Value)
    requires Writable(ty, v) && v != TriValue(NO)
    ensures var text := ValueText(ty, v); '\n' !in text && text != [] && text[|text| - 1] != '\r'
  {
    if ty == Str {
      EscapeNoNewline(v.text);
    } else if v.TextValue? {
      NumberChars(ty, v.text);
    }
  }

  lemma NumberChars(ty: SymType, s: string)
    requires (ty == IntNum || ty == Hex) && StringValid(ty, s)
    ensures forall k :: 0 <= k < |s| ==> s[k] in {'-', 'x', 'X'} || IsHexDigit(s[k])
  {
    forall k | 0 <= k < |s| ensures s[k] in {'-', 'x', 'X'} || IsHexDigit(s[k]) {
      if ty == IntNum && s[0] == '-' && k > 0 {
        assert s[k] == s[1..][k - 1];
      } else if ty == Hex && k >= 2 {
        assert s[k] == s[2..][k - 2];
      }
    }
  }

  lemma {:induction false} EscapeNoNewline(s: string)
    requires '\n' !in s
    ensures '\n' !in Escape(s)
  {
    if s != [] {
      EscapeNoNewline(s[1..]);
    }
  }

  // ---------------------------------------------------------------------------------------------------------
  // Whole files
  // ---------------------------------------------------------------------------------------------------------

  datatype Entry = Entry(name: string, value: Value)

  ghost predicate AllWritable(types: string -> SymType, entries: seq<Entry>) {
    forall k :: 0 <= k < |entries| ==> IsName(entries[k].name) && Writable(types(entries[k].name), entries[k].value)
  }

  function WriteFile(prefix: string, types: string -> SymType, entries: seq<Entry>): string {
    if entries == [] then []
    else PrintSymbol(prefix, entries[0].name, types(entries[0].name), entries[0].value)
         + WriteFile(prefix, types, entries[1..])
  }

  /** compat_getline until the end of the file, with what each line sets. */
  function ReadFile(prefix: string, types: string -> SymType, text: string): seq<(string, Outcome)>
    decreases |text|
  {
    if text == [] then []
    else
      var k := Find(text, '\n');
      var end := if k < |text| then k + 1 else k;
      var r := ReadLine(prefix, types, text[..end]);
      (if r.Some? then [r.value] else []) + ReadFile(prefix, types, text[end..])
  }

  /** The first line of a text, read on its own. */
  lemma ReadFirst(prefix: string, types: string -> SymType, line: string, tail: string)
    requires line != [] && line[|line| - 1] == '\n' && '\n' !in line[..|line| - 1]
    ensures var r := ReadLine(prefix, types, line);
            ReadFile(prefix, types, line + tail) == (if r.Some? then [r.value] else []) + ReadFile(prefix, types, tail)
  {
    var body := line[..|line| - 1];
    var text := line + tail;
    assert text == body + ['\n'] + tail;
    FindFirst(body, '\n', tail);
    assert text[..|line|] == line && text[|line|..] == tail;
  }

  /** A file that was written is read back entry for entry. */
  lemma {:induction false} FileRoundTrip(prefix: string, types: string -> SymType, entries: seq<Entry>)
    requires IsName(prefix) && AllWritable(types, entries)
    ensures ReadFile(prefix, types, WriteFile(prefix, types, entries)) == Results(entries)
  {
    if entries != [] {
      var name, v := entries[0].name, entries[0].value;
      LineRoundTrip(prefix, types, name, v);
      LineIsOneLine(prefix, name, types(name), v);
      ReadFirst(prefix, types, PrintSymbol(prefix, name, types(name), v), WriteFile(prefix, types, entries[1..]));
      FileRoundTrip(prefix, types, entries[1..]);
    }
  }

  function Results(entries: seq<Entry>): seq<(string, Outcome)> {
    if entries == [] then [] else [(entries[0].name, Stored(entries[0].value))] + Results(entries[1..])
  }

  lemma LineIsOneLine(prefix: string, name: string, ty: SymType, v: Value)
    requires IsName(prefix) && IsName(name) && Writable(ty, v)
    ensures var line := PrintSymbol(prefix, name, ty, v);
            line != [] && line[|line| - 1] == '\n' && '\n' !in line[..|line| - 1]
  {
    var line := PrintSymbol(prefix, name, ty, v);
    if v == TriValue(NO) {
      assert line[..|line| - 1] == "# " + prefix + name + " is not set";
    } else {
      TextIsPlain(ty, v);
      assert line[..|line| - 1] == prefix + name + "=" + ValueText(ty, v);
    }
  }

  // ---------------------------------------------------------------------------------------------------------
  // What is written, line by line
  // ---------------------------------------------------------------------------------------------------------

  /** The text assigned for a value is y or m, the number, or the string between quotes. */
  predicate TextFor(ty: SymType, v: Value, text: string) {
    match v
    case TriValue(tri) => text == if tri == YES then "y" else "m"
    case TextValue(s) =>
      if ty == Str then
        && |text| == |s| + Specials(s) + 2 && text[0] == '"' && text[|text| - 1] == '"'
        && Unquote(text[1..]) == Some(s)
      else text == s
  }

  /** A value of n makes a comment; any other value makes an assignment of its text. */
  predicate SaysValue(prefix: string, name: string, ty: SymType, v: Value, line: string) {
    if v == TriValue(NO) then
      line == "# " + prefix + name + " is not set\n" && ParseLine(prefix, line) == Unset(name)
    else
      && prefix + name + "=" <= line && line[0] != '#'
      && var said := ParseLine(prefix, line);
         said.Assigned? && said.name == name && TextFor(ty, v, said.text)
  }

  lemma LineSaysValue(prefix: string, name: string, ty: SymType, v: Value)
    requires IsName(prefix) && IsName(name) && Writable(ty, v)
    ensures SaysValue(prefix, name, ty, v, PrintSymbol(prefix, name, ty, v))
  {
    var line := PrintSymbol(prefix, name, ty, v);
    if v == TriValue(NO) {
      UnsetRoundTrip(prefix, name);
    } else {
      var text := ValueText(ty, v);
      TextIsPlain(ty, v);
      AssignedRoundTrip(prefix, name, text);
      assert line == (prefix + name + "=") + (text + "\n");
      assert line[0] == if prefix != [] then prefix[0] else if name != [] then name[0] else '=';
      TextIs(ty, v);
    }
  }

  lemma TextIs(ty: SymType, v: Value)
    requires Writable(ty, v) && v != TriValue(NO)
    ensures TextFor(ty, v, ValueText(ty, v))
  {
    if ty == Str {
      QuotedText(v.text, ValueText(ty, v));
    }
  }

  lemma QuotedText(s: string, text: string)
    requires text == "\"" + Escape(s) + "\""
    ensures |text| == |s| + Specials(s) + 2 && text[0] == '"' && text[|text| - 1] == '"'
    ensures Unquote(text[1..]) == Some(s)
  {
    BetweenQuotes(Escape(s), text);
    EscapeLength(s);
    UnquoteEscape(s, []);
  }

  lemma BetweenQuotes(body: string, text: string)
    requires text == "\"" + body + "\""
    ensures |text| == |body| + 2 && text[0] == '"' && text[|text| - 1] == '"'
    ensures text[1..] == body + "\"" + []
  {
  }

  /** The lines of a file, each with its line feed if it has one. */
  function Lines(text: string): seq<string>
    decreases |text|
  {
    if text == [] then []
    else
      var k := Find(text, '\n');
      var end := if k < |text| then k + 1 else k;
      [text[..end]] + Lines(text[end..])
  }

  lemma LinesFirst(line: string, tail: string)
    requires line != [] && line[|line| - 1] == '\n' && '\n' !in line[..|line| - 1]
    ensures Lines(line + tail) == [line] + Lines(tail)
  {
    var body := line[..|line| - 1];
    var text := line + tail;
    assert text == body + ['\n'] + tail;
    FindFirst(body, '\n', tail);
    assert text[..|line|] == line && text[|line|..] == tail;
  }

  function LinesFor(prefix: string, types: string -> SymType, entries: seq<Entry>): seq<string> {
    if entries == [] then []
    else [PrintSymbol(prefix, entries[0].name, types(entries[0].name), entries[0].value)]
         + LinesFor(prefix, types, entries[1..])
  }

  lemma {:induction false} FileLines(prefix: string, types: string -> SymType, entries: seq<Entry>)
    requires IsName(prefix) && AllWritable(types, entries)
    ensures Lines(WriteFile(prefix, types, entries)) == LinesFor(prefix, types, entries)
  {
    if entries != [] {
      var name, v := entries[0].name, entries[0].value;
      LineIsOneLine(prefix, name, types(name), v);
      LinesFirst(PrintSymbol(prefix, name, types(name), v), WriteFile(prefix, types, entries[1..]));
      FileLines(prefix, types, entries[1..]);
    }
  }

  lemma {:induction false} LinesForAt(prefix: string, types: string -> SymType, entries: seq<Entry>, k: nat)
    requires k < |entries|
    ensures |LinesFor(prefix, types, entries)| == |entries|
    ensures LinesFor(prefix, types, entries)[k]
         == PrintSymbol(prefix, entries[k].name, types(entries[k].name), entries[k].value)
  {
    if |entries| > 1 {
      LinesForAt(prefix, types, entries[1..], if k > 0 then k - 1 else 0);
    }
  }

  /** A written file has one line for each entry, in their order, which says its value. */
  lemma FileSaysValues(prefix: string, types: string -> SymType, entries: seq<Entry>)
    requires IsName(prefix) && AllWritable(types, entries)
    ensures var lines := Lines(WriteFile(prefix, types, entries));
            && |lines| == |entries|
            && forall k :: 0 <= k < |entries| ==>
                 SaysValue(prefix, entries[k].name, types(entries[k].name), entries[k].value, lines[k])
  {
    FileLines(prefix, types, entries);
    if entries != [] {
      LinesForAt(prefix, types, entries, 0);
    }
    forall k | 0 <= k < |entries|
      ensures SaysValue(prefix, entries[k].name, types(entries[k].name), entries[k].value,
                        LinesFor(prefix, types, entries)[k])
    {
      LinesForAt(prefix, types, entries, k);
      LineSaysValue(prefix, entries[k].name, types(entries[k].name), entries[k].value);
    }
  }

  /** No line of a written file assigns n, whatever the type of the symbol. */
  lemma NothingAssignsN(prefix: string, types: string -> SymType, entries: seq<Entry>, line: string)
    requires IsName(prefix) && AllWritable(types, entries) && line in Lines(WriteFile(prefix, types, entries))
    ensures var said := ParseLine(prefix, line);
            && (said.Assigned? ==> said.text != [] && said.text[0] != 'n')
            && (said.Unset? ==> Entry(said.name, TriValue(NO)) in entries)
            && !said.Skipped?
  {
    var lines := Lines(WriteFile(prefix, types, entries));
    FileSaysValues(prefix, types, entries);
    var k :| 0 <= k < |lines| && lines[k] == line;
    NotAssignedN(prefix, entries[k].name, types(entries[k].name), entries[k].value, line);
    assert entries[k] == Entry(entries[k].name, entries[k].value);
  }

  lemma NotAssignedN(prefix: string, name: string, ty: SymType, v: Value, line: string)
    requires Writable(ty, v) && SaysValue(prefix, name, ty, v, line)
    ensures var said := ParseLine(prefix, line);
            if v == TriValue(NO) then said == Unset(name) else said.Assigned? && said.text != [] && said.text[0] != 'n'
  {
    if v.TextValue? && ty != Str {
      NumberChars(ty, v.text);
    }
  }

  // ---------------------------------------------------------------------------------------------------------
  // What is read, line by line
  // ---------------------------------------------------------------------------------------------------------

  /** Exactly the comments `# ... is not set` unset a symbol; the character after the # is not looked at, nor what
      comes behind. */
  lemma UnsetExactly(prefix: string, line: string, name: string)
    ensures ParseLine(prefix, line) == Unset(name) <==> ' ' !in name && exists c, tail :: Unsets(prefix, line, name, c, tail)
  {
    if ParseLine(prefix, line) == Unset(name) {
      var c, tail := UnsetParts(prefix, line, name);
    }
    if ' ' !in name {
      forall c, tail | Unsets(prefix, line, name, c, tail) ensures ParseLine(prefix, line) == Unset(name) {
        ParseUnset(prefix, line, name, c, tail);
      }
    }
  }

  predicate Unsets(prefix: string, line: string, name: string, c: char, tail: string) {
    line == ['#', c] + (prefix + (name + [' '] + (NOT_SET + tail)))
  }

  lemma UnsetParts(prefix: string, line: string, name: string) returns (c: char, tail: string)
    requires ParseLine(prefix, line) == Unset(name)
    ensures ' ' !in name && Unsets(prefix, line, name, c, tail)
  {
    var rest := line[2 + |prefix|..];
    c, tail := line[1], rest[|name| + 1..][|NOT_SET|..];
    assert rest[|name| + 1..] == NOT_SET + tail;
    assert rest == name + [' '] + (NOT_SET + tail);
    assert line[2..] == prefix + rest;
    assert line == ['#', c] + line[2..];
  }

  lemma ParseUnset(prefix: string, line: string, name: string, c: char, tail: string)
    requires ' ' !in name && Unsets(prefix, line, name, c, tail)
    ensures ParseLine(prefix, line) == Unset(name)
  {
    var rest := name + [' '] + (NOT_SET + tail);
    assert line[2..] == prefix + rest;
    assert line[2 + |prefix|..] == rest;
    FindFirst(name, ' ', NOT_SET + tail);
    assert rest[|name| + 1..] == NOT_SET + tail && rest[..|name|] == name;
  }

  /** Exactly the lines NAME=value that are no comments assign; the name ends at the first equals sign. */
  lemma AssignedExactly(prefix: string, line: string, name: string, text: string)
    ensures ParseLine(prefix, line) == Assigned(name, text) <==>
            '=' !in name && exists tail :: Assigns(prefix, line, name, tail) && text == ChopLine(tail)
  {
    if ParseLine(prefix, line) == Assigned(name, text) {
      var tail := AssignedTail(prefix, line, name, text);
    }
    if '=' !in name {
      forall tail | Assigns(prefix, line, name, tail) && text == ChopLine(tail)
        ensures ParseLine(prefix, line) == Assigned(name, text)
      {
        ParseAssigned(prefix, name, tail, line);
      }
    }
  }

  predicate Assigns(prefix: string, line: string, name: string, tail: string) {
    line == prefix + (name + ['='] + tail) && line[0] != '#'
  }

  lemma AssignedTail(prefix: string, line: string, name: string, text: string) returns (tail: string)
    requires ParseLine(prefix, line) == Assigned(name, text)
    ensures '=' !in name && Assigns(prefix, line, name, tail) && text == ChopLine(tail)
  {
    var rest := line[|prefix|..];
    var k := Find(rest, '=');
    WhatIsAssigned(prefix, line);
    tail := rest[k + 1..];
    Around(rest, k);
    PrefixAndRest(prefix, line);
  }

  lemma WhatIsAssigned(prefix: string, line: string)
    requires ParseLine(prefix, line).Assigned?
    ensures prefix <= line && (line != [] ==> line[0] != '#')
    ensures var rest := line[|prefix|..];
            var k := Find(rest, '=');
            k < |rest| && ParseLine(prefix, line) == Assigned(rest[..k], ChopLine(rest[k + 1..]))
  {
  }

  lemma Around(s: string, k: nat)
    requires k < |s|
    ensures s == s[..k] + [s[k]] + s[k + 1..]
  {
  }

  lemma PrefixAndRest(prefix: string, line: string)
    requires prefix <= line
    ensures line == prefix + line[|prefix|..]
  {
  }

  /** A value ends before the first line feed, and before a carriage return in front of it. */
  lemma ChopExactly(text: string, tail: string)
    requires '\n' !in text
    ensures ChopLine(text) == text
    ensures ChopLine(text + "\r\n" + tail) == text
    ensures text == [] || text[|text| - 1] != '\r' ==> ChopLine(text + "\n" + tail) == text
  {
    assert Find(text, '\n') == |text|;
    assert text + "\r\n" + tail == (text + "\r") + ['\n'] + tail;
    FindFirst(text + "\r", '\n', tail);
    FindFirst(text, '\n', tail);
    assert text + "\n" + tail == text + ['\n'] + tail;
  }

  /** A boolean or tristate symbol gets the value that the first letter of the text names; a boolean one refuses m,
      and both refuse everything else. */
  lemma TristateExactly(ty: SymType, p: string, v: Tri)
    requires ty == Boolean || ty == Tristate
    ensures SetSymVal(ty, p) == Stored(TriValue(v)) <==>
            ("y" <= p && v == YES) || ("n" <= p && v == NO) || ("m" <= p && v == MOD && ty == Tristate)
    ensures SetSymVal(ty, p) == Refused <==>
            !("y" <= p) && !("n" <= p) && ("m" <= p ==> ty == Boolean)
    ensures SetSymVal(ty, p).Stored? || SetSymVal(ty, p).Refused?
  {
    assert "y" <= p <==> p != [] && p[0] == 'y';
    assert "n" <= p <==> p != [] && p[0] == 'n';
    assert "m" <= p <==> p != [] && p[0] == 'm';
  }

  /** The decimal digits of a number. */
  function Decimal(n: nat): (s: string)
    ensures s != [] && AllDigits(s) && (s[0] == '0' <==> n == 0)
    ensures n == 0 ==> s == "0"
  {
    if n < 10 then ['0' + n as char] else Decimal(n / 10) + ['0' + (n % 10) as char]
  }

  /** The number that some digits stand for. */
  ghost function NumberOf(d: string): nat
    requires AllDigits(d)
  {
    if d == [] then 0 else NumberOf(d[..|d| - 1]) * 10 + (d[|d| - 1] as nat - '0' as nat)
  }

  lemma {:induction false} DecimalOfNumber(d: string)
    requires d != [] && AllDigits(d) && (d[0] == '0' ==> |d| == 1)
    ensures Decimal(NumberOf(d)) == d
  {
    var last := |d| - 1;
    if last > 0 {
      DecimalOfNumber(d[..last]);
      assert d == d[..last] + [d[last]];
      assert NumberOf(d[..last]) > 0;
    } else {
      assert NumberOf(d[..0]) == 0;
    }
  }

  /** The text of an integer is valid exactly if it is the decimal form of a number, without leading zeros, perhaps
      behind a minus sign. */
  lemma IntExactly(s: string)
    ensures StringValid(IntNum, s) <==> exists n: nat :: s == Decimal(n) || s == "-" + Decimal(n)
  {
    if StringValid(IntNum, s) {
      var d := if s[0] == '-' then s[1..] else s;
      DecimalOfNumber(d);
      assert s == d || s == "-" + d;
      assert s == Decimal(NumberOf(d)) || s == "-" + Decimal(NumberOf(d));
    }
    if n: nat :| s == Decimal(n) || s == "-" + Decimal(n) {
      var d := Decimal(n);
      assert s != d ==> s[1..] == d;
    }
  }

  /** Some hexadecimal digits, perhaps behind 0x or 0X. */
  predicate HexForm(s: string, d: string) {
    d != [] && AllHexDigits(d) && (s == d || s == "0x" + d || s == "0X" + d)
  }

  /** ... and that of a hexadecimal number if it consists of such digits, perhaps behind 0x or 0X. */
  lemma HexExactly(s: string)
    ensures StringValid(Hex, s) <==> exists d :: HexForm(s, d)
  {
    if StringValid(Hex, s) {
      var digits := HexDigits(s);
    }
    forall d | HexForm(s, d) ensures StringValid(Hex, s) {
      HexFormIsValid(s, d);
    }
  }

  lemma HexDigits(s: string) returns (d: string)
    requires StringValid(Hex, s)
    ensures HexForm(s, d)
  {
    d := s;
    if |s| >= 2 && s[0] == '0' && (s[1] == 'x' || s[1] == 'X') {
      d := s[2..];
      assert s == [s[0], s[1]] + d;
    }
  }

  lemma HexFormIsValid(s: string, d: string)
    requires HexForm(s, d)
    ensures StringValid(Hex, s)
  {
    if s != d {
      assert s[2..] == d;
    } else if |s| >= 2 {
      assert IsHexDigit(d[1]);
    }
  }

  /** A number that is not of this form is refused, and any other stored as it stands. */
  lemma NumberExactly(ty: SymType, p: string)
    requires ty == IntNum || ty == Hex
    ensures SetSymVal(ty, p) == Stored(TextValue(p)) || SetSymVal(ty, p) == Refused
    ensures SetSymVal(ty, p) == Refused <==> !StringValid(ty, p)
  {
  }

  /** A character of a quoted string as it is written: as itself, or behind a backslash. */
  datatype Written = Plain(c: char) | Escaped(c: char)

  function Spell(chars: seq<Written>): string {
    if chars == [] then []
    else (match chars[0] case Plain(c) => [c] case Escaped(c) => ['\\', c]) + Spell(chars[1..])
  }

  function Meaning(chars: seq<Written>): string {
    if chars == [] then [] else [chars[0].c] + Meaning(chars[1..])
  }

  /** The text is these characters, a quote and something else; quotes and backslashes among the characters stand
      behind a backslash. */
  ghost predicate Quoted(text: string, chars: seq<Written>, rest: string) {
    (forall k :: 0 <= k < |chars| && chars[k].Plain? ==> !IsSpecial(chars[k].c)) && text == Spell(chars) + "\"" + rest
  }

  lemma {:induction false} QuotedMeans(text: string, chars: seq<Written>, rest: string)
    requires Quoted(text, chars, rest)
    ensures Unquote(text) == Some(Meaning(chars))
    decreases |chars|
  {
    if chars == [] {
      assert text[0] == '"';
    } else {
      var tail := Spell(chars[1..]) + "\"" + rest;
      assert Quoted(tail, chars[1..], rest);
      QuotedMeans(tail, chars[1..], rest);
      match chars[0]
      case Plain(c) => assert text == [c] + tail && text[1..] == tail;
      case Escaped(c) => assert text == ['\\', c] + tail && text[2..] == tail;
    }
  }

  lemma {:induction false} Quoting(text: string) returns (chars: seq<Written>, rest: string)
    requires Unquote(text).Some?
    ensures Quoted(text, chars, rest)
    decreases |text|
  {
    if text[0] == '"' {
      chars, rest := [], text[1..];
      assert text == Spell([]) + "\"" + rest;
    } else {
      var first, length := Plain(text[0]), 1;
      if text[0] == '\\' {
        first, length := Escaped(text[1]), 2;
      }
      var others;
      others, rest := Quoting(text[length..]);
      chars := [first] + others;
      assert chars[1..] == others;
      assert text == text[..length] + (Spell(others) + "\"" + rest);
      assert Spell(chars) == text[..length] + Spell(others);
    }
  }

  /** What is read from behind an opening quote is what the text up to the closing quote stands for, and nothing if
      there is no closing quote. */
  lemma UnquoteExactly(text: string, value: string)
    ensures Unquote(text) == Some(value) <==> exists chars, rest :: Quoted(text, chars, rest) && value == Meaning(chars)
  {
    if Unquote(text) == Some(value) {
      var chars, rest := Quoting(text);
      QuotedMeans(text, chars, rest);
    }
    forall chars, rest | Quoted(text, chars, rest) ensures Unquote(text) == Some(Meaning(chars)) {
      QuotedMeans(text, chars, rest);
    }
  }

  /** A string symbol is passed over without an opening quote, gets the string that is quoted, or is refused. */
  lemma StringExactly(p: string, value: string)
    ensures SetSymVal(Str, p) == PassedOver <==> !("\"" <= p)
    ensures SetSymVal(Str, p) == Stored(TextValue(value)) <==>
            "\"" <= p && exists chars, rest :: Quoted(p[1..], chars, rest) && value == Meaning(chars)
  {
    assert "\"" <= p <==> p != [] && p[0] == '"';
    if "\"" <= p {
      UnquoteExactly(p[1..], value);
    }
  }

  lemma {:induction false} UnquoteNoNewline(s: string)
    requires '\n' !in s && Unquote(s).Some?
    ensures '\n' !in Unquote(s).value
    decreases |s|
  {
    if s[0] == '\\' {
      UnquoteNoNewline(s[2..]);
    } else if s[0] != '"' {
      UnquoteNoNewline(s[1..]);
    }
  }

  /** The values that can be written are exactly those that can be read from some text on one line. */
  lemma WritableExactly(ty: SymType, v: Value)
    ensures Writable(ty, v) <==> exists p: string :: '\n' !in p && SetSymVal(ty, p) == Stored(v)
  {
    if Writable(ty, v) {
      var p := if v == TriValue(NO) then "n" else ValueText(ty, v);
      if v != TriValue(NO) {
        TextIsPlain(ty, v);
        SetRoundTrip(ty, v);
      }
      assert '\n' !in p && SetSymVal(ty, p) == Stored(v);
    }
    forall p: string | '\n' !in p && SetSymVal(ty, p) == Stored(v) ensures Writable(ty, v) {
      if ty == Str {
        UnquoteNoNewline(p[1..]);
      }
    }
  }
}
