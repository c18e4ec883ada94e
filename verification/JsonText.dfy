/**
 Printing and reading JSON strings and arrays of strings (src/core/utils.cpp; the array printer is in
 src/app/link_command_service.cpp).  The escapes are those of section 7 of RFC 8259 that the source
 knows; the reader takes the character after a backslash as it stands.
 */
module JsonText {
  import opened Text
  import opened Wrappers

  // ----- printing -----

  function EscapeChar(c: char): string {
    match c
    case '\\' => "\\\\"
    case '"' => "\\\""
    case '\n' => "\\n"
    case '\r' => "\\r"
    case '\t' => "\\t"
    case _ => [c]
  }

  function Escape(s: string): string {
    if s == "" then "" else EscapeChar(s[0]) + Escape(s[1..])
  }

  function JsonString(s: string): string {
    "\"" + Escape(s) + "\""
  }

  method JsonEscape(input: string) returns (out: string)
    ensures out == Escape(input)
  {
    out := "";
    for i := 0 to |input|
      invariant out + Escape(input[i..]) == Escape(input)
    {
      EscapeStep(out, input, i);
      out := out + EscapeChar(input[i]);
    }
  }

  lemma EscapeStep(out: string, input: string, i: nat)
    requires i < |input|
    ensures out + Escape(input[i..]) == (out + EscapeChar(input[i])) + Escape(input[i + 1..])
  {
    assert input[i..][0] == input[i] && input[i..][1..] == input[i + 1..];
    Concat3(out, EscapeChar(input[i]), Escape(input[i + 1..]));
  }

  lemma Concat3(a: string, b: string, c: string)
    ensures a + (b + c) == (a + b) + c
  {
  }

  /** The elements of an array, separated by commas. */
  function ArrayBody(values: seq<string>): string {
    if values == [] then ""
    else if |values| == 1 then JsonString(values[0])
    else JsonString(values[0]) + ("," + ArrayBody(values[1..]))
  }

  function PrintArray(values: seq<string>): string {
    "[" + ArrayBody(values) + "]"
  }

  /** What is still to print of an array. */
  function ArrayRest(values: seq<string>, first: bool): string {
    if values == [] then "]"
    else (if first then "" else ",") + (JsonString(values[0]) + ArrayRest(values[1..], false))
  }

  lemma {:induction false} ArrayRestIsBody(values: seq<string>)
    ensures ArrayRest(values, true) == ArrayBody(values) + "]"
    ensures values != [] ==> ArrayRest(values, false) == "," + (ArrayBody(values) + "]")
  {
    if values != [] {
      ArrayRestIsBody(values[1..]);
      if |values| > 1 {
        assert JsonString(values[0]) + ("," + (ArrayBody(values[1..]) + "]")) == ArrayBody(values) + "]";
      }
    }
  }

  /** The tag printer's loop. */
  method SerializeTags(tags: seq<string>) returns (out: string)
    ensures out == PrintArray(tags)
  {
    out := "[";
    for i := 0 to |tags|
      invariant out + ArrayRest(tags[i..], i == 0) == "[" + ArrayRest(tags, true)
    {
      ghost var before := out;
      ghost var rest := ArrayRest(tags[i + 1..], false);
      assert tags[i..][0] == tags[i] && tags[i..][1..] == tags[i + 1..];
      if i > 0 {
        out := out + ",";
      }
      out := out + JsonString(tags[i]);
      assert before + ((if i == 0 then "" else ",") + (JsonString(tags[i]) + rest)) == out + rest;
    }
    out := out + "]";
    ArrayRestIsBody(tags);
    Concat3("[", ArrayBody(tags), "]");
  }

  // ----- reading -----

  /** The text after the first occurrence of `key`. */
  function After(s: string, key: string): Option<string> {
    if key <= s then Some(s[|key|..])
    else if s == "" then None
    else After(s[1..], key)
  }

  function Key(field: string): string {
    "\"" + field + "\""
  }

  /** The text from the value of a field on: after the key, a colon and white space. */
  function ValueText(body: string, field: string): Option<string> {
    var afterKey := After(body, Key(field));
    if afterKey.None? then None else
      var afterColon := After(afterKey.value, ":");
      if afterColon.None? then None else Some(SkipSpace(afterColon.value))
  }

  /** What a string scan finds: the value, the text behind it, and whether the closing quote was there. */
  datatype Scan = Scan(value: string, rest: string, closed: bool)

  function ScanString(s: string, escape: bool): Scan {
    if s == "" then Scan("", "", false)
    else if escape then Prepend(s[0], ScanString(s[1..], false))
    else if s[0] == '\\' then ScanString(s[1..], true)
    else if s[0] == '"' then Scan("", s[1..], true)
    else Prepend(s[0], ScanString(s[1..], false))
  }

  function Prepend(c: char, scan: Scan): Scan {
    scan.(value := [c] + scan.value)
  }

  function StringAt(v: string): Option<string> {
    if v == "" || v[0] != '"' then None else
      var scan := ScanString(v[1..], false);
      if scan.closed then Some(scan.value) else None
  }

  function StringField(body: string, field: string): Option<string> {
    var v := ValueText(body, field);
    if v.None? then None else StringAt(v.value)
  }

  datatype Mode = Outside | InString | Escaped

  /** Length of the text up to the bracket that brings the depth back to zero. */
  function Balanced(s: string, open: char, close: char, depth: int, mode: Mode): Option<nat> {
    if s == "" then None else
      var c := s[0];
      match mode
      case Escaped => Further(Balanced(s[1..], open, close, depth, InString))
      case InString =>
        Further(Balanced(s[1..], open, close, depth, if c == '\\' then Escaped else if c == '"' then Outside else InString))
      case Outside =>
        if c == '"' then Further(Balanced(s[1..], open, close, depth, InString))
        else if c == open then Further(Balanced(s[1..], open, close, depth + 1, Outside))
        else if c == close then
          if depth - 1 == 0 then Some(1) else Further(Balanced(s[1..], open, close, depth - 1, Outside))
        else Further(Balanced(s[1..], open, close, depth, Outside))
  }

  function Further(n: Option<nat>): Option<nat> {
    if n.Some? then Some(n.value + 1) else None
  }

  function TokenAt(v: string): Option<string> {
    if v == "" then None
    else if "null" <= v then Some("null")
    else if v[0] == '"' then StringAt(v)
    else if v[0] == '[' || v[0] == '{' then
      var n := Balanced(v, v[0], if v[0] == '[' then ']' else '}', 0, Outside);
      if n.Some? && n.value <= |v| then Some(v[..n.value]) else None
    else None
  }

  function ValueToken(body: string, field: string): Option<string> {
    var v := ValueText(body, field);
    if v.None? then None else TokenAt(v.value)
  }

  /** The inside of the brackets; a string cut off by the end counts, and so does a trailing comma. */
  function Elements(s: string): Option<seq<string>>
    decreases |s|
  {
    SkipSpaceShorter(s);
    var t := SkipSpace(s);
    if t == "" then Some([])
    else if t[0] != '"' then None
    else
      var scan := ScanString(t[1..], false);
      ScanShorter(t[1..], false);
      SkipSpaceShorter(scan.rest);
      var u := SkipSpace(scan.rest);
      if u == "" then Some([scan.value])
      else if u[0] != ',' then None
      else
        Join([scan.value], Elements(u[1..]))
  }

  function ArrayToken(token: string): Option<seq<string>> {
    if token == "null" then Some([])
    else if |token| < 2 || token[0] != '[' || token[|token| - 1] != ']' then None
    else Elements(token[1..|token| - 1])
  }

  function StringArrayField(body: string, field: string): Option<seq<string>> {
    var token := ValueToken(body, field);
    if token.None? then None else ArrayToken(token.value)
  }

  lemma {:induction false} ScanShorter(s: string, escape: bool)
    ensures |ScanString(s, escape).rest| <= |s|
    ensures ScanString(s, escape).rest == s[|s| - |ScanString(s, escape).rest|..]
  {
    if s != "" {
      if escape {
        ScanShorter(s[1..], false);
      } else if s[0] == '\\' {
        ScanShorter(s[1..], true);
      } else if s[0] != '"' {
        ScanShorter(s[1..], false);
      }
    }
  }

  // ----- the scanners as the source writes them: loops over indices and flags -----

  method Find(s: string, key: string, from: nat) returns (pos: Option<nat>)
    requires from <= |s|
    ensures pos.None? <==> After(s[from..], key).None?
    ensures pos.Some? ==> from <= pos.value && pos.value + |key| <= |s| && key <= s[pos.value..]
                          && After(s[from..], key) == Some(s[pos.value + |key|..])
    ensures pos.Some? ==> forall i :: from <= i < pos.value ==> !(key <= s[i..])
  {
    var i := from;
    while true
      invariant from <= i <= |s|
      invariant After(s[i..], key) == After(s[from..], key)
      invariant forall j :: from <= j < i ==> !(key <= s[j..])
      decreases |s| - i
    {
      if key <= s[i..] {
        assert s[i..][|key|..] == s[i + |key|..];
        return Some(i);
      }
      if i == |s| {
        return None;
      }
      assert s[i..][1..] == s[i + 1..];
      i := i + 1;
    }
  }

  method SkipSpaces(s: string, from: nat) returns (i: nat)
    requires from <= |s|
    ensures from <= i <= |s| && s[i..] == SkipSpace(s[from..])
  {
    i := from;
    while i < |s| && IsSpace(s[i])
      invariant from <= i <= |s|
      invariant SkipSpace(s[i..]) == SkipSpace(s[from..])
    {
      assert s[i..][1..] == s[i + 1..];
      i := i + 1;
    }
  }

  ghost function Extend(value: string, scan: Scan): Scan {
    scan.(value := value + scan.value)
  }

  lemma ExtendPrepend(value: string, c: char, scan: Scan)
    ensures Extend(value, Prepend(c, scan)) == Extend(value + [c], scan)
    ensures Extend("", scan) == scan
    ensures Extend(value, Scan("", scan.rest, scan.closed)) == Scan(value, scan.rest, scan.closed)
  {
    assert value + ([c] + scan.value) == (value + [c]) + scan.value;
    assert "" + scan.value == scan.value && value + "" == value;
  }

  /** The loop that reads a string up to its closing quote. */
  method ReadString(s: string, from: nat) returns (value: string, next: nat, closed: bool)
    requires from <= |s|
    ensures from <= next <= |s|
    ensures ScanString(s[from..], false) == Scan(value, s[next..], closed)
  {
    value, next := "", from;
    var escape := false;
    ExtendPrepend("", ' ', ScanString(s[from..], false));
    while next < |s|
      invariant from <= next <= |s|
      invariant ScanString(s[from..], false) == Extend(value, ScanString(s[next..], escape))
    {
      var c := s[next];
      assert s[next..][0] == c && s[next..][1..] == s[next + 1..];
      next := next + 1;
      ExtendPrepend(value, c, ScanString(s[next..], false));
      if escape {
        value := value + [c];
        escape := false;
        continue;
      }
      if c == '\\' {
        escape := true;
        continue;
      }
      if c == '"' {
        return value, next, true;
      }
      value := value + [c];
    }
    closed := false;
  }

  /** Colon and white space after a key. */
  method AfterColon(body: string, from: nat) returns (pos: Option<nat>)
    requires from <= |body|
    ensures pos.None? ==> After(body[from..], ":").None?
    ensures pos.Some? ==> pos.value <= |body| && After(body[from..], ":").Some?
                          && SkipSpace(After(body[from..], ":").value) == body[pos.value..]
  {
    var colonPos := Find(body, ":", from);
    if colonPos.None? {
      return None;
    }
    var i := SkipSpaces(body, colonPos.value + 1);
    return Some(i);
  }

  /** Key, colon and white space: the common start of all field readers. */
  method FindValue(body: string, field: string) returns (keyPos: nat, pos: Option<nat>)
    ensures keyPos <= |body|
    ensures pos.None? ==> ValueText(body, field).None?
    ensures pos.Some? ==> pos.value <= |body| && ValueText(body, field) == Some(body[pos.value..])
    ensures pos.Some? ==> Key(field) <= body[keyPos..] && After(body, Key(field)) == Some(body[keyPos + |Key(field)|..])
  {
    var key := Key(field);
    assert body[0..] == body;
    var found := Find(body, key, 0);
    if found.None? {
      return 0, None;
    }
    keyPos := found.value;
    pos := AfterColon(body, keyPos + |key|);
  }

  /** Cutting a document off in front of the key changes nothing for the field. */
  lemma {:induction false} ValueTextFromKey(body: string, keyPos: nat, field: string)
    requires keyPos <= |body| && Key(field) <= body[keyPos..]
    requires After(body, Key(field)) == Some(body[keyPos + |Key(field)|..])
    ensures ValueText(body[keyPos..], field) == ValueText(body, field)
  {
    assert body[keyPos..][|Key(field)|..] == body[keyPos + |Key(field)|..];
  }

  method ExtractJsonStringField(body: string, field: string) returns (r: Option<string>)
    ensures r == StringField(body, field)
  {
    var _, pos := FindValue(body, field);
    if pos.None? {
      return None;
    }
    var i := pos.value;
    if i >= |body| || body[i] != '"' {
      return None;
    }
    assert body[i..][1..] == body[i + 1..];
    var value, _, closed := ReadString(body, i + 1);
    return if closed then Some(value) else None;
  }

  /** The loop that finds the matching bracket, from the opening one at `from`. */
  method MatchBracket(s: string, from: nat) returns (end: Option<nat>)
    requires from < |s|
    ensures var n := Balanced(s[from..], s[from], if s[from] == '[' then ']' else '}', 0, Outside);
            end == if n.None? then None else Some(from + n.value)
    ensures end.Some? ==> end.value <= |s|
  {
    var open := s[from];
    var close := if open == '[' then ']' else '}';
    var depth := 0;
    var inString, escape := false, false;
    var i := from;
    while i < |s|
      invariant from <= i <= |s|
      invariant escape ==> inString
      invariant var n := Balanced(s[from..], open, close, 0, Outside);
                var m := Balanced(s[i..], open, close, depth, if escape then Escaped else if inString then InString else Outside);
                (n.None? <==> m.None?) && (n.Some? ==> n.value == m.value + (i - from))
    {
      var c := s[i];
      assert s[i..][0] == c && s[i..][1..] == s[i + 1..];
      i := i + 1;
      if inString {
        if escape {
          escape := false;
          continue;
        }
        if c == '\\' {
          escape := true;
          continue;
        }
        if c == '"' {
          inString := false;
        }
        continue;
      }
      if c == '"' {
        inString := true;
        continue;
      }
      if c == open {
        depth := depth + 1;
      } else if c == close {
        depth := depth - 1;
        if depth == 0 {
          return Some(i);
        }
      }
    }
    return None;
  }

  method ExtractJsonValueToken(body: string, field: string) returns (r: Option<string>)
    ensures r == ValueToken(body, field)
  {
    var keyPos, pos := FindValue(body, field);
    if pos.None? {
      return None;
    }
    var i := pos.value;
    if i >= |body| {
      return None;
    }
    if body[i] == 'n' && "null" <= body[i..] {
      return Some("null");
    }
    if body[i] == '"' {
      ValueTextFromKey(body, keyPos, field);
      r := ExtractJsonStringField(body[keyPos..], field);
      return;
    }
    if body[i] == '[' || body[i] == '{' {
      var end := MatchBracket(body, i);
      if end.Some? {
        assert body[i..][..end.value - i] == body[i..end.value];
        return Some(body[i..end.value]);
      }
      return None;
    }
    return None;
  }

  method ExtractJsonStringArrayField(body: string, field: string) returns (r: Option<seq<string>>)
    ensures r == StringArrayField(body, field)
  {
    var token := ExtractJsonValueToken(body, field);
    if token.None? {
      return None;
    }
    if token.value == "null" {
      return Some([]);
    }
    var raw := token.value;
    if |raw| < 2 || raw[0] != '[' || raw[|raw| - 1] != ']' {
      return None;
    }
    r := ReadElements(raw[1..|raw| - 1]);
  }

  datatype Element = End | Malformed | Element(value: string, next: nat)

  /** One round of the loop over the elements: white space, a string, white space and a comma. */
  method ReadElement(s: string, from: nat) returns (e: Element)
    requires from <= |s|
    ensures e.End? ==> Elements(s[from..]) == Some([])
    ensures e.Malformed? ==> Elements(s[from..]) == None
    ensures e.Element? ==> from < e.next <= |s| && Elements(s[from..]) == Join([e.value], Elements(s[e.next..]))
  {
    var i := SkipSpaces(s, from);
    if i >= |s| {
      return End;
    }
    if s[i] != '"' {
      return Malformed;
    }
    assert s[i..][1..] == s[i + 1..];
    var value, next, closed := ReadString(s, i + 1);
    i := SkipSpaces(s, next);
    ElementsUnfold(s[from..], Scan(value, s[next..], closed));
    if i < |s| {
      if s[i] != ',' {
        return Malformed;
      }
      assert s[i..][1..] == s[i + 1..];
      i := i + 1;
    }
    return Element(value, i);
  }

  /** The loop over the elements; `s` is the text between the brackets. */
  method ReadElements(s: string) returns (r: Option<seq<string>>)
    ensures r == Elements(s)
  {
    var out: seq<string> := [];
    var i := 0;
    assert s[0..] == s;
    JoinAssociates([], [], Elements(s));
    while i < |s|
      invariant i <= |s|
      invariant Elements(s) == Join(out, Elements(s[i..]))
      decreases |s| - i
    {
      var e := ReadElement(s, i);
      if e.End? {
        break;
      }
      if e.Malformed? {
        return None;
      }
      JoinAssociates(out, [e.value], Elements(s[e.next..]));
      out, i := out + [e.value], e.next;
    }
    assert out + [] == out;
    return Some(out);
  }

  /** One element of the list. */
  lemma {:induction false} ElementsUnfold(s: string, scan: Scan)
    requires SkipSpace(s) != "" && SkipSpace(s)[0] == '"' && ScanString(SkipSpace(s)[1..], false) == scan
    ensures var u := SkipSpace(scan.rest);
            Elements(s) == if u == "" then Join([scan.value], Elements(""))
                           else if u[0] != ',' then None else Join([scan.value], Elements(u[1..]))
  {
    assert [scan.value] + [] == [scan.value];
  }

  function Join(front: seq<string>, back: Option<seq<string>>): Option<seq<string>> {
    if back.None? then None else Some(front + back.value)
  }

  lemma JoinAssociates(a: seq<string>, b: seq<string>, back: Option<seq<string>>)
    ensures Join(a, Join(b, back)) == Join(a + b, back)
    ensures Join([], back) == back
  {
    if back.Some? {
      assert a + (b + back.value) == (a + b) + back.value;
      assert [] + back.value == back.value;
    }
  }

  // ----- which bracket is the matching one -----

  /** Where the end of a text is: outside strings, in one, or after a backslash in one. */
  function ModeAfter(s: string): Mode {
    if s == "" then Outside else
      var c := s[|s| - 1];
      match ModeAfter(s[..|s| - 1])
      case Outside => if c == '"' then InString else Outside
      case InString => if c == '\\' then Escaped else if c == '"' then Outside else InString
      case Escaped => InString
  }

  /** Opening brackets minus closing ones, those inside strings not counted. */
  function Depth(s: string, open: char, close: char): int {
    if s == "" then 0 else
      var c := s[|s| - 1];
      Depth(s[..|s| - 1], open, close)
      + (if ModeAfter(s[..|s| - 1]) != Outside then 0 else if c == '"' then 0 else if c == open then 1 else if c == close then -1 else 0)
  }

  /** The text ends in a closing bracket outside strings that evens out the brackets. */
  predicate ClosesAt(s: string, open: char, close: char) {
    s != "" && s[|s| - 1] == close && ModeAfter(s[..|s| - 1]) == Outside && Depth(s, open, close) == 0
  }

  lemma {:induction false} PrefixGrows(p: string, c: char, open: char, close: char)
    ensures ModeAfter(p + [c]) == match ModeAfter(p)
                                  case Outside => if c == '"' then InString else Outside
                                  case InString => if c == '\\' then Escaped else if c == '"' then Outside else InString
                                  case Escaped => InString
    ensures Depth(p + [c], open, close)
         == Depth(p, open, close) + (if ModeAfter(p) != Outside || c == '"' then 0 else if c == open then 1 else if c == close then -1 else 0)
    ensures ClosesAt(p + [c], open, close) <==> c == close && ModeAfter(p) == Outside && Depth(p + [c], open, close) == 0
  {
    assert (p + [c])[..|p|] == p;
  }

  /** Behind `p`, the length `n` is that of the shortest text that closes, or none does. */
  ghost predicate FirstClose(p: string, t: string, n: Option<nat>, open: char, close: char) {
    && (n.Some? ==> 0 < n.value <= |t| && ClosesAt(p + t[..n.value], open, close))
    && (forall m :: 0 < m <= |t| && (n.Some? ==> m < n.value) ==> !ClosesAt(p + t[..m], open, close))
  }

  lemma FirstCloseStep(p: string, t: string, n: Option<nat>, open: char, close: char)
    requires t != "" && !ClosesAt(p + [t[0]], open, close) && FirstClose(p + [t[0]], t[1..], n, open, close)
    ensures FirstClose(p, t, Further(n), open, close)
  {
    forall m | 0 < m <= |t|
      ensures m == 1 ==> p + t[..m] == p + [t[0]]
      ensures m > 1 ==> p + t[..m] == p + [t[0]] + t[1..][..m - 1]
    {
      assert t[..m] == [t[0]] + t[1..][..m - 1];
    }
  }

  lemma {:induction false} BalancedFrom(p: string, t: string, open: char, close: char)
    requires open != close && open != '"' && close != '"'
    ensures FirstClose(p, t, Balanced(t, open, close, Depth(p, open, close), ModeAfter(p)), open, close)
    decreases |t|
  {
    if t != "" {
      PrefixGrows(p, t[0], open, close);
      if ClosesAt(p + [t[0]], open, close) {
        assert p + t[..1] == p + [t[0]];
      } else {
        BalancedFrom(p + [t[0]], t[1..], open, close);
        FirstCloseStep(p, t, Balanced(t[1..], open, close, Depth(p + [t[0]], open, close), ModeAfter(p + [t[0]])), open, close);
      }
    }
  }

  /** The bracket scan stops at the first closing bracket outside strings that evens out the brackets. */
  lemma {:induction false} BalancedIsFirstClose(s: string, open: char, close: char)
    requires open != close && open != '"' && close != '"'
    ensures FirstClose("", s, Balanced(s, open, close, 0, Outside), open, close)
  {
    BalancedFrom("", s, open, close);
  }

  // ----- reading back what was printed -----

  /** What the reader makes of a printed character: the letter of its escape. */
  function RereadChar(c: char): char {
    match c
    case '\n' => 'n'
    case '\r' => 'r'
    case '\t' => 't'
    case _ => c
  }

  function Reread(s: string): (r: string)
    ensures |r| == |s| && forall i :: 0 <= i < |s| ==> r[i] == RereadChar(s[i])
  {
    if s == "" then "" else [RereadChar(s[0])] + Reread(s[1..])
  }

  function RereadAll(values: seq<string>): (r: seq<string>)
    ensures |r| == |values| && forall i :: 0 <= i < |values| ==> r[i] == Reread(values[i])
  {
    if values == [] then [] else [Reread(values[0])] + RereadAll(values[1..])
  }

  lemma {:induction false} EscapeSplits(s: string, t: string)
    ensures Escape(s) + t == if s == "" then t else EscapeChar(s[0]) + (Escape(s[1..]) + t)
    ensures s != "" ==> |Escape(s)| == |EscapeChar(s[0])| + |Escape(s[1..])|
  {
    if s != "" {
      Concat3(EscapeChar(s[0]), Escape(s[1..]), t);
    }
  }

  lemma {:induction false} ScanPrinted(s: string, t: string)
    ensures ScanString(Escape(s) + ("\"" + t), false) == Scan(Reread(s), t, true)
  {
    if s == "" {
      EscapeSplits(s, "\"" + t);
      assert ("\"" + t)[1..] == t;
    } else {
      var rest := Escape(s[1..]) + ("\"" + t);
      ScanPrinted(s[1..], t);
      EscapeSplits(s, "\"" + t);
      ScanChar(s[0], rest);
    }
  }

  lemma {:induction false} ScanChar(c: char, rest: string)
    ensures ScanString(EscapeChar(c) + rest, false) == Prepend(RereadChar(c), ScanString(rest, false))
  {
    var e := EscapeChar(c);
    var s := e + rest;
    if |e| == 1 {
      assert s[1..] == rest;
    } else {
      assert s[1..][0] == e[1] && s[1..][1..] == rest;
    }
  }

  lemma {:induction false} BalancedPrinted(s: string, t: string, depth: int)
    ensures var n := Balanced(t, '[', ']', depth, Outside);
            Balanced(Escape(s) + ("\"" + t), '[', ']', depth, InString)
            == if n.None? then None else Some(|Escape(s)| + 1 + n.value)
  {
    if s == "" {
      EscapeSplits(s, "\"" + t);
      assert ("\"" + t)[1..] == t;
    } else {
      var rest := Escape(s[1..]) + ("\"" + t);
      BalancedPrinted(s[1..], t, depth);
      EscapeSplits(s, "\"" + t);
      BalancedChar(s[0], rest, depth);
    }
  }

  lemma {:induction false} BalancedChar(c: char, rest: string, depth: int)
    ensures var n := Balanced(rest, '[', ']', depth, InString);
            Balanced(EscapeChar(c) + rest, '[', ']', depth, InString)
            == if n.None? then None else Some(|EscapeChar(c)| + n.value)
  {
    var e := EscapeChar(c);
    var s := e + rest;
    if |e| == 1 {
      assert s[1..] == rest;
    } else {
      assert s[1..][0] == e[1] && s[1..][1..] == rest;
    }
  }

  /** A printed string followed by anything. */
  lemma {:induction false} JsonStringSplits(v: string, t: string)
    ensures JsonString(v) + t == "\"" + (Escape(v) + ("\"" + t))
    ensures (JsonString(v) + t)[1..] == Escape(v) + ("\"" + t)
  {
    assert JsonString(v) + t == "\"" + (Escape(v) + ("\"" + t));
  }

  /** The bracket scan steps over a whole printed string, brackets inside it included. */
  lemma {:induction false} BalancedOverString(v: string, t: string)
    ensures var n := Balanced(t, '[', ']', 1, Outside);
            Balanced(JsonString(v) + t, '[', ']', 1, Outside) == if n.None? then None else Some(|JsonString(v)| + n.value)
  {
    JsonStringSplits(v, t);
    BalancedPrinted(v, t, 1);
  }

  lemma {:induction false} ArrayBodySplits(values: seq<string>, end: string)
    requires |values| > 1
    ensures ArrayBody(values) + end == JsonString(values[0]) + ("," + (ArrayBody(values[1..]) + end))
    ensures |ArrayBody(values)| == |JsonString(values[0])| + 1 + |ArrayBody(values[1..])|
  {
    ConcatAssociates(JsonString(values[0]), ",", ArrayBody(values[1..]), end);
  }

  lemma ConcatAssociates(a: string, b: string, c: string, d: string)
    ensures (a + (b + c)) + d == a + (b + (c + d))
  {
  }

  lemma {:induction false} BalancedComma(t: string)
    ensures Balanced("," + t, '[', ']', 1, Outside) == Further(Balanced(t, '[', ']', 1, Outside))
  {
    assert ("," + t)[1..] == t;
  }

  lemma {:induction false} BalancedOverBody(values: seq<string>, post: string)
    ensures Balanced(ArrayBody(values) + ("]" + post), '[', ']', 1, Outside) == Some(|ArrayBody(values)| + 1)
  {
    var end := "]" + post;
    assert Balanced(end, '[', ']', 1, Outside) == Some(1);
    if values == [] {
      assert ArrayBody(values) + end == end;
    } else if |values| == 1 {
      BalancedOverString(values[0], end);
    } else {
      BalancedOverBody(values[1..], post);
      ArrayBodySplits(values, end);
      BalancedComma(ArrayBody(values[1..]) + end);
      BalancedOverString(values[0], "," + (ArrayBody(values[1..]) + end));
    }
  }

  /** The token of a printed array is the array, whatever follows it. */
  lemma TokenOfArray(values: seq<string>, post: string)
    ensures TokenAt(PrintArray(values) + post) == Some(PrintArray(values))
  {
    var text := PrintArray(values) + post;
    var inner := ArrayBody(values) + ("]" + post);
    assert text == "[" + inner;
    assert text[1..] == inner;
    BalancedOverBody(values, post);
    assert text[..|PrintArray(values)|] == PrintArray(values);
  }

  lemma {:induction false} ElementsOfString(v: string, t: string)
    requires t == "" || t[0] == ','
    ensures Elements(JsonString(v) + t) == if t == "" then Some([Reread(v)]) else Join([Reread(v)], Elements(t[1..]))
  {
    var s := JsonString(v) + t;
    JsonStringSplits(v, t);
    ScanPrinted(v, t);
    assert s[0] == '"';
    assert SkipSpace(s) == s;
    assert SkipSpace(t) == t;
  }

  lemma {:induction false} ElementsOfBody(values: seq<string>)
    ensures Elements(ArrayBody(values)) == Some(RereadAll(values))
  {
    if |values| == 1 {
      ElementsOfString(values[0], "");
      assert JsonString(values[0]) + "" == ArrayBody(values);
      assert RereadAll(values) == [Reread(values[0])];
    } else if |values| > 1 {
      var t := "," + ArrayBody(values[1..]);
      ElementsOfString(values[0], t);
      ElementsOfBody(values[1..]);
      assert t[1..] == ArrayBody(values[1..]);
    }
  }

  lemma {:induction false} ArrayReads(values: seq<string>)
    ensures ArrayToken(PrintArray(values)) == Some(RereadAll(values))
  {
    var text := PrintArray(values);
    assert text[1..|text| - 1] == ArrayBody(values);
    ElementsOfBody(values);
  }

  /**
   Between the first occurrence of the quoted name and the field's own colon, which `text` starts with,
   there is no other colon.  So it is when the field's own key is the first occurrence.
   */
  ghost predicate Reaches(pre: string, field: string, text: string) {
    var found := After(pre + (Key(field) + text), Key(field));
    found.Some? && |text| <= |found.value| && ':' !in found.value[..|found.value| - |text|]
  }

  lemma {:induction false} AfterFirst(pre: string, key: string, text: string)
    requires forall i :: 0 <= i < |pre| ==> !(key <= (pre + (key + text))[i..])
    ensures After(pre + (key + text), key) == Some(text)
  {
    var s := pre + (key + text);
    if pre == "" {
      assert s == key + text;
      assert (key + text)[|key|..] == text;
    } else {
      assert s[0..] == s;
      assert s[1..] == pre[1..] + (key + text);
      forall i | 0 <= i < |pre[1..]|
        ensures !(key <= (pre[1..] + (key + text))[i..])
      {
        assert s[i + 1..] == s[1..][i..];
      }
      AfterFirst(pre[1..], key, text);
    }
  }

  ghost predicate AllSpace(s: string) {
    forall i :: 0 <= i < |s| ==> IsSpace(s[i])
  }

  lemma {:induction false} SkipAllSpace(space: string, value: string)
    requires AllSpace(space) && value != "" && !IsSpace(value[0])
    ensures SkipSpace(space + value) == value
  {
    if space == "" {
      assert space + value == value;
    } else {
      assert (space + value)[1..] == space[1..] + value;
      SkipAllSpace(space[1..], value);
    }
  }

  /** What lies between the first occurrence of a key and `text`: nothing, or a piece that ends in a quote. */
  lemma {:induction false} Gap(pre: string, field: string, text: string) returns (gap: string)
    ensures After(pre + (Key(field) + text), Key(field)) == Some(gap + text)
    ensures gap == "" || gap[|gap| - 1] == '"'
  {
    var key := Key(field);
    var s := pre + (key + text);
    if key <= s {
      gap := s[|key|..|s| - |text|];
      assert s[|key|..] == gap + text;
      if gap != "" {
        assert gap[|gap| - 1] == s[|pre| + |key| - 1] == key[|key| - 1];
      }
    } else {
      assert pre == "" ==> s == key + text;
      assert s[1..] == pre[1..] + (key + text);
      gap := Gap(pre[1..], field, text);
    }
  }

  lemma {:induction false} AfterColonIn(gap: string, rest: string)
    ensures ':' !in gap ==> After(gap + (":" + rest), ":") == Some(rest)
    ensures ':' in gap && gap[|gap| - 1] == '"' ==>
              var u := After(gap + (":" + rest), ":"); u.Some? && |SkipSpace(u.value)| > |rest|
  {
    var s := gap + (":" + rest);
    if gap == "" {
      assert s[1..] == rest;
    } else {
      assert s[1..] == gap[1..] + (":" + rest);
      if gap[0] == ':' {
        assert ":" <= s;
        if gap[|gap| - 1] == '"' {
          SkipStopsAtQuote(gap[1..|gap| - 1], ":" + rest);
          assert s[1..] == gap[1..|gap| - 1] + ("\"" + (":" + rest));
        }
      } else {
        AfterColonIn(gap[1..], rest);
      }
    }
  }

  lemma {:induction false} SkipStopsAtQuote(a: string, b: string)
    ensures |SkipSpace(a + ("\"" + b))| > |b|
  {
    if a != "" {
      assert (a + ("\"" + b))[1..] == a[1..] + ("\"" + b);
      SkipStopsAtQuote(a[1..], b);
    }
  }

  lemma {:induction false} ReachesOverGap(pre: string, field: string, text: string, gap: string)
    requires After(pre + (Key(field) + text), Key(field)) == Some(gap + text)
    ensures Reaches(pre, field, text) <==> ':' !in gap
  {
    assert (gap + text)[..|gap + text| - |text|] == gap;
  }

  /** A field's value is what the readers look at exactly when its key is reached, in any document. */
  lemma ValueTextExactly(pre: string, field: string, space: string, value: string)
    requires AllSpace(space) && value != "" && !IsSpace(value[0])
    ensures ValueText(pre + (Key(field) + (":" + (space + value))), field) == Some(value)
            <==> Reaches(pre, field, ":" + (space + value))
  {
    var text := ":" + (space + value);
    var gap := Gap(pre, field, text);
    ReachesOverGap(pre, field, text, gap);
    AfterColonIn(gap, space + value);
    SkipAllSpace(space, value);
  }

  ghost predicate ReadsBack(s: string) {
    forall i :: 0 <= i < |s| ==> s[i] != '\n' && s[i] != '\r' && s[i] != '\t'
  }

  lemma {:induction false} RereadExactly(s: string)
    ensures Reread(s) == s <==> ReadsBack(s)
  {
  }

  /**
   Reading back an array field of any document.  The readers get to the printed array exactly when its
   key is reached.  They then return every string with its line feeds, carriage returns and tabs
   turned into the letters n, r and t, and everything else intact: quotes, backslashes, brackets and
   commas included.  So they return the printed list exactly when no string holds one of these three.
   */
  lemma {:induction false} ArrayFieldRoundTrip(pre: string, field: string, space: string, values: seq<string>, post: string)
    requires AllSpace(space)
    ensures var value := PrintArray(values) + post;
            var body := pre + (Key(field) + (":" + (space + value)));
            && (ValueText(body, field) == Some(value) <==> Reaches(pre, field, ":" + (space + value)))
            && (Reaches(pre, field, ":" + (space + value)) ==>
                  && ValueToken(body, field) == Some(PrintArray(values))
                  && StringArrayField(body, field) == Some(RereadAll(values))
                  && (StringArrayField(body, field) == Some(values) <==> forall v :: v in values ==> ReadsBack(v)))
  {
    ValueTextExactly(pre, field, space, PrintArray(values) + post);
    TokenOfArray(values, post);
    ArrayReads(values);
    RereadAllExactly(values);
  }

  lemma {:induction false} RereadAllExactly(values: seq<string>)
    ensures RereadAll(values) == values <==> forall v :: v in values ==> ReadsBack(v)
  {
    forall i | 0 <= i < |values|
      ensures RereadAll(values)[i] == values[i] <==> ReadsBack(values[i])
    {
      RereadExactly(values[i]);
    }
    if RereadAll(values) == values {
      forall v | v in values
        ensures ReadsBack(v)
      {
        var i :| 0 <= i < |values| && values[i] == v;
      }
    }
  }

  /** The same for a single string field. */
  lemma {:induction false} StringFieldRoundTrip(pre: string, field: string, space: string, value: string, post: string)
    requires AllSpace(space)
    ensures var text := JsonString(value) + post;
            var body := pre + (Key(field) + (":" + (space + text)));
            && (ValueText(body, field) == Some(text) <==> Reaches(pre, field, ":" + (space + text)))
            && (Reaches(pre, field, ":" + (space + text)) ==>
                  && StringField(body, field) == Some(Reread(value))
                  && (StringField(body, field) == Some(value) <==> ReadsBack(value)))
  {
    ValueTextExactly(pre, field, space, JsonString(value) + post);
    StringAtPrinted(value, post);
    RereadExactly(value);
  }

  lemma {:induction false} StringAtPrinted(value: string, post: string)
    ensures StringAt(JsonString(value) + post) == Some(Reread(value))
  {
    JsonStringSplits(value, post);
    ScanPrinted(value, post);
  }

  /** An explicit null reads as the empty list. */
  lemma NullReadsAsEmptyList(pre: string, field: string, space: string, post: string)
    requires AllSpace(space) && Reaches(pre, field, ":" + (space + ("null" + post)))
    ensures StringArrayField(pre + (Key(field) + (":" + (space + ("null" + post)))), field) == Some([])
  {
    ValueTextExactly(pre, field, space, "null" + post);
  }

  /** In a document whose first field it is, any field is found, whatever its name or value. */
  lemma FirstFieldIsFound(field: string, text: string)
    ensures Reaches("{", field, text)
  {
    var s := "{" + (Key(field) + text);
    assert s[0] == '{' && s[1..] == Key(field) + text;
    AfterFirst("", Key(field), text);
    assert "" + (Key(field) + text) == Key(field) + text;
    assert text[..0] == "";
  }

  /** A line feed comes back as the letter n. */
  lemma LineFeedDoesNotRoundTrip(field: string)
    ensures StringField("{" + (Key(field) + (":" + (JsonString("\n") + "}"))), field) == Some("n")
  {
    FirstFieldIsFound(field, ":" + (JsonString("\n") + "}"));
    assert "" + (JsonString("\n") + "}") == JsonString("\n") + "}";
    StringFieldRoundTrip("{", field, "", "\n", "}");
    assert Reread("\n") == "n";
  }

  /** The token of a value in brackets is the shortest text that closes them, outside strings; without one there is no token. */
  lemma {:induction false} TokenOfBrackets(v: string)
    requires v != "" && (v[0] == '[' || v[0] == '{')
    ensures var close := if v[0] == '[' then ']' else '}';
            var token := TokenAt(v);
            if token.None? then FirstClose("", v, None, v[0], close)
            else FirstClose("", v, Some(|token.value|), v[0], close) && token.value <= v
  {
    BalancedIsFirstClose(v, v[0], if v[0] == '[' then ']' else '}');
  }

  // ----- lists that were not printed -----

  /** Printed strings, each with a comma behind it. */
  function ListStart(values: seq<string>): string {
    if values == [] then "" else JsonString(values[0]) + ("," + ListStart(values[1..]))
  }

  /** The elements of a list are those of its start, then those of the rest; a rest that is refused is refused there. */
  lemma {:induction false} ElementsInTwo(values: seq<string>, rest: string)
    ensures Elements(ListStart(values) + rest) == Join(RereadAll(values), Elements(rest))
  {
    if values == [] {
      assert ListStart(values) + rest == rest;
      JoinAssociates([], [], Elements(rest));
    } else {
      var more := ListStart(values[1..]) + rest;
      ElementsInTwo(values[1..], rest);
      assert ListStart(values) + rest == JsonString(values[0]) + ("," + more);
      assert ("," + more)[1..] == more;
      ElementsOfString(values[0], "," + more);
      JoinAssociates([Reread(values[0])], RereadAll(values[1..]), Elements(rest));
    }
  }

  /** After any number of strings: an element that is no string is refused, and so is one that no comma follows; a comma at the end is not. */
  lemma {:induction false} MalformedLists(values: seq<string>, v: string, c: char, rest: string)
    requires !IsSpace(c)
    ensures c != '"' ==> Elements(ListStart(values) + ([c] + rest)) == None
    ensures c != ',' ==> Elements(ListStart(values) + (JsonString(v) + ([c] + rest))) == None
    ensures Elements(ListStart(values)) == Some(RereadAll(values))
  {
    ElementsInTwo(values, [c] + rest);
    ElementsInTwo(values, JsonString(v) + ([c] + rest));
    ElementsInTwo(values, "");
    assert ListStart(values) + "" == ListStart(values) && RereadAll(values) + [] == RereadAll(values);
    assert SkipSpace([c] + rest) == [c] + rest;
    if c != ',' {
      StringThen(v, c, rest);
    }
  }

  lemma {:induction false} StringThen(v: string, c: char, rest: string)
    requires !IsSpace(c) && c != ','
    ensures Elements(JsonString(v) + ([c] + rest)) == None
  {
    var s := JsonString(v) + ([c] + rest);
    JsonStringSplits(v, [c] + rest);
    ScanPrinted(v, [c] + rest);
    assert s[0] == '"' && SkipSpace(s) == s;
    assert SkipSpace([c] + rest) == [c] + rest;
    ElementsUnfold(s, Scan(Reread(v), [c] + rest, true));
  }

  lemma {:induction false} ScanUnclosed(s: string)
    ensures ScanString(Escape(s), false) == Scan(Reread(s), "", false)
  {
    if s != "" {
      ScanUnclosed(s[1..]);
      ScanChar(s[0], Escape(s[1..]));
    }
  }

  /** A string without its closing quote is no value, and neither is a text that does not start with a quote. */
  lemma {:induction false} NoStringThere(s: string, c: char, rest: string)
    requires c != '"'
    ensures StringAt("\"" + Escape(s)) == None && StringAt([c] + rest) == None && StringAt("") == None
  {
    ScanUnclosed(s);
    assert ("\"" + Escape(s))[1..] == Escape(s);
  }
}
