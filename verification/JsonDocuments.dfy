/**
 Finding a field in a whole printed document.  The readers of src/core/utils.cpp look for the quoted
 name anywhere in the text, so a string value can be taken for a key; here is exactly when.

 A document is a sequence of printed strings and other characters, as serializeLinkViewJson
 (src/app/link_command_service.cpp) writes it.  The names looked for are plain ones, as all that the
 handlers ask for are.
 */
module JsonDocuments {
  import opened JsonText
  import opened Text
  import opened Wrappers

  datatype Token = Str(value: string) | Bare(c: char)

  function Print(token: Token): string {
    match token
    case Str(value) => JsonString(value)
    case Bare(c) => [c]
  }

  function PrintAll(tokens: seq<Token>): string {
    if tokens == [] then "" else Print(tokens[0]) + PrintAll(tokens[1..])
  }

  /** A name that is printed as it stands and holds no colon. */
  ghost predicate IsPlain(field: string) {
    forall i :: 0 <= i < |field| ==> EscapeChar(field[i]) == [field[i]] && field[i] != ':'
  }

  predicate EndsIn(s: string, suffix: string) {
    |s| >= |suffix| && s[|s| - |suffix|..] == suffix
  }

  /** A string whose printed form ends in the quoted name: the name itself, or one that ends in a quote and the name. */
  predicate Hits(s: string, field: string) {
    s == field || EndsIn(s, "\"" + field)
  }

  /** Bare characters are not quotes, and none that the name could start with comes right after a string. */
  ghost predicate Separates(tokens: seq<Token>, field: string)
    requires field != ""
  {
    && (forall i :: 0 <= i < |tokens| && tokens[i].Bare? ==> tokens[i].c != '"')
    && (forall i :: 0 < i < |tokens| && tokens[i - 1].Str? && tokens[i].Bare? ==> tokens[i].c != field[0])
  }

  /** The tokens behind the first string that hits. */
  function Tail(tokens: seq<Token>, field: string): Option<seq<Token>> {
    if tokens == [] then None
    else if tokens[0].Str? && Hits(tokens[0].value, field) then Some(tokens[1..])
    else Tail(tokens[1..], field)
  }

  // ----- searching one printed string -----

  /** The inside of a printed string, its closing quote, and what follows. */
  function Inside(s: string, more: string): string {
    Escape(s) + ("\"" + more)
  }

  lemma InsideSplits(s: string, more: string)
    requires s != ""
    ensures Inside(s, more) == EscapeChar(s[0]) + Inside(s[1..], more)
  {
    EscapeSplits(s, "\"" + more);
  }

  lemma OtherStart(a: string, b: string)
    requires a != "" && b != "" && a[0] != b[0]
    ensures !(a <= b)
  {
  }

  /** A plain name and a quote start the inside of a string only when the name is all of it. */
  lemma {:induction false} PrefixIsWhole(s: string, more: string, field: string)
    requires IsPlain(field)
    ensures field + "\"" <= Inside(s, more) <==> s == field
    ensures s == field ==> Inside(s, more)[|field| + 1..] == more
  {
    if s == "" {
      assert Inside(s, more) == "\"" + more;
      if field != "" {
        OtherStart(field + "\"", "\"" + more);
      }
    } else {
      InsideSplits(s, more);
      if field != "" && s[0] == field[0] {
        assert IsPlain(field[1..]);
        PrefixIsWhole(s[1..], more, field[1..]);
        PrefixIsWholeStep(s[0], s[1..], more, field[1..]);
        assert s == [s[0]] + s[1..] && field == [s[0]] + field[1..];
      } else {
        StartsOtherwise(s, more, field);
      }
    }
  }

  lemma StartsOtherwise(s: string, more: string, field: string)
    requires IsPlain(field) && s != "" && (field == "" || s[0] != field[0])
    ensures !(field + "\"" <= Inside(s, more))
  {
    InsideSplits(s, more);
    assert Inside(s, more)[0] == EscapeChar(s[0])[0] != '"';
    assert field != "" ==> field[0] != '\\';
    OtherStart(field + "\"", Inside(s, more));
  }

  lemma PrefixIsWholeStep(c: char, s: string, more: string, field: string)
    requires EscapeChar(c) == [c]
    requires field + "\"" <= Inside(s, more) <==> s == field
    requires s == field ==> Inside(s, more)[|field| + 1..] == more
    ensures ([c] + field) + "\"" <= [c] + Inside(s, more) <==> s == field
    ensures s == field ==> ([c] + Inside(s, more))[|field| + 2..] == more
  {
    assert ([c] + field) + "\"" == [c] + (field + "\"");
    PrefixOfCons(c, field + "\"", Inside(s, more));
    if s == field {
      assert ([c] + Inside(s, more))[|field| + 2..] == Inside(s, more)[|field| + 1..];
    }
  }

  lemma PrefixOfCons(c: char, a: string, b: string)
    ensures [c] + a <= [c] + b <==> a <= b
  {
    assert ([c] + a)[1..] == a && ([c] + b)[1..] == b;
    if [c] + a <= [c] + b {
      assert forall i :: 0 <= i < |a| ==> a[i] == ([c] + a)[i + 1] == ([c] + b)[i + 1] == b[i];
    }
  }

  lemma EndsInCons(c: char, s: string, suffix: string)
    ensures EndsIn([c] + s, suffix) <==> EndsIn(s, suffix) || [c] + s == suffix
  {
    var t := [c] + s;
    if |s| >= |suffix| {
      assert t[|t| - |suffix|..] == s[|s| - |suffix|..];
    } else if |t| == |suffix| {
      assert t[0..] == t;
    }
  }

  /** Characters that do not start with a quote are passed over. */
  lemma {:induction false} AfterSkips(c: char, rest: string, field: string)
    requires c != '"'
    ensures After([c] + rest, Key(field)) == After(rest, Key(field))
  {
    assert ([c] + rest)[1..] == rest;
    assert Key(field)[0] == '"' && ([c] + rest)[0] == c;
  }

  /** At a quote: the name and its closing quote follow, or the search goes on. */
  lemma {:induction false} AfterQuote(rest: string, field: string)
    ensures After("\"" + rest, Key(field))
         == if field + "\"" <= rest then Some(rest[|field| + 1..]) else After(rest, Key(field))
  {
    var s := "\"" + rest;
    assert s[1..] == rest;
    assert Key(field) == "\"" + (field + "\"");
    PrefixOfCons('"', field + "\"", rest);
    if Key(field) <= s {
      assert s[|Key(field)|..] == rest[|field| + 1..];
    }
  }

  lemma {:induction false} AfterEscaped(c: char, rest: string, field: string)
    requires c != '"'
    ensures After(EscapeChar(c) + rest, Key(field)) == After(rest, Key(field))
  {
    var e := EscapeChar(c);
    if |e| == 1 {
      AfterSkips(c, rest, field);
    } else {
      assert e + rest == ['\\'] + ([e[1]] + rest);
      AfterSkips('\\', [e[1]] + rest, field);
      AfterSkips(e[1], rest, field);
    }
  }

  lemma {:induction false} AfterEscapedQuote(rest: string, field: string)
    ensures After(EscapeChar('"') + rest, Key(field))
         == if field + "\"" <= rest then Some(rest[|field| + 1..]) else After(rest, Key(field))
  {
    assert EscapeChar('"') + rest == ['\\'] + ("\"" + rest);
    AfterSkips('\\', "\"" + rest, field);
    AfterQuote(rest, field);
  }

  lemma EndsInStep(s: string, field: string)
    requires s != ""
    ensures EndsIn(s, "\"" + field) <==> EndsIn(s[1..], "\"" + field) || (s[0] == '"' && s[1..] == field)
  {
    assert s == [s[0]] + s[1..];
    EndsInCons(s[0], s[1..], "\"" + field);
    assert s == "\"" + field <==> s[0] == '"' && s[1..] == field;
  }

  /** The closing quote of a string starts no quoted name. */
  ghost predicate StopsName(more: string, field: string) {
    field != "" && (more == "" || more[0] != field[0])
  }

  lemma {:induction false} SearchInside(s: string, more: string, field: string)
    requires IsPlain(field) && StopsName(more, field)
    ensures After(Inside(s, more), Key(field)) == if EndsIn(s, "\"" + field) then Some(more) else After(more, Key(field))
  {
    if s == "" {
      assert Inside(s, more) == "\"" + more;
      AfterQuote(more, field);
    } else {
      var rest := Inside(s[1..], more);
      InsideSplits(s, more);
      SearchInside(s[1..], more, field);
      EndsInStep(s, field);
      if s[0] == '"' {
        AfterEscapedQuote(rest, field);
        PrefixIsWhole(s[1..], more, field);
      } else {
        AfterEscaped(s[0], rest, field);
      }
    }
  }

  /** Searching from the start of a printed string finds its end when the string hits, and goes on behind it otherwise. */
  lemma {:induction false} SearchString(s: string, more: string, field: string)
    requires IsPlain(field) && StopsName(more, field)
    ensures After(JsonString(s) + more, Key(field)) == if Hits(s, field) then Some(more) else After(more, Key(field))
  {
    JsonStringSplits(s, more);
    assert JsonString(s) + more == "\"" + Inside(s, more);
    AfterQuote(Inside(s, more), field);
    PrefixIsWhole(s, more, field);
    SearchInside(s, more, field);
  }

  // ----- searching a document -----

  lemma {:induction false} TextSplits(tokens: seq<Token>, text: string)
    requires tokens != []
    ensures PrintAll(tokens) + text == Print(tokens[0]) + (PrintAll(tokens[1..]) + text)
  {
  }

  lemma StringStops(tokens: seq<Token>, field: string, end: string)
    requires IsPlain(field) && StopsName(end, field) && tokens != [] && tokens[0].Str? && Separates(tokens, field)
    ensures StopsName(PrintAll(tokens[1..]) + end, field)
  {
    if |tokens| > 1 {
      TextSplits(tokens[1..], end);
      assert tokens[1 - 1].Str?;
      assert tokens[1..][0] == tokens[1];
    }
  }

  /** The search for a key ends behind the first string that hits, and otherwise goes on behind the tokens. */
  lemma {:induction false} SearchTokens(tokens: seq<Token>, field: string, end: string)
    requires IsPlain(field) && StopsName(end, field) && Separates(tokens, field)
    ensures var tail := Tail(tokens, field);
            After(PrintAll(tokens) + end, Key(field))
            == if tail.None? then After(end, Key(field)) else Some(PrintAll(tail.value) + end)
  {
    if tokens == [] {
      assert PrintAll(tokens) + end == end;
    } else {
      var more := PrintAll(tokens[1..]) + end;
      TextSplits(tokens, end);
      SeparatesRest(tokens, field);
      SearchTokens(tokens[1..], field, end);
      if tokens[0].Str? {
        StringStops(tokens, field, end);
        SearchString(tokens[0].value, more, field);
      } else {
        AfterSkips(tokens[0].c, more, field);
      }
    }
  }

  /** In front of the field itself the search ends behind the first string that hits, or at the field. */
  lemma {:induction false} SearchDocument(tokens: seq<Token>, field: string, text: string)
    requires IsPlain(field) && field != "" && Separates(tokens, field)
    ensures var tail := Tail(tokens, field);
            After(PrintAll(tokens) + (Key(field) + text), Key(field))
            == Some(if tail.None? then text else PrintAll(tail.value) + (Key(field) + text))
  {
    SearchTokens(tokens, field, Key(field) + text);
    assert (Key(field) + text)[|Key(field)|..] == text;
  }

  lemma SeparatesRest(tokens: seq<Token>, field: string)
    requires field != "" && tokens != [] && Separates(tokens, field)
    ensures Separates(tokens[1..], field)
  {
    forall i | 0 < i < |tokens[1..]| && tokens[1..][i - 1].Str? && tokens[1..][i].Bare?
      ensures tokens[1..][i].c != field[0]
    {
      assert tokens[1..][i - 1] == tokens[i + 1 - 1] && tokens[1..][i] == tokens[i + 1];
    }
  }

  lemma {:induction false} ReachesBehind(pre: string, field: string, text: string, between: string)
    requires IsPlain(field) && After(pre + (Key(field) + text), Key(field)) == Some(between + (Key(field) + text))
    ensures Reaches(pre, field, text) <==> ':' !in between
  {
    Concat3(between, Key(field), text);
    ReachesOverGap(pre, field, text, between + Key(field));
    assert ':' !in field;
    assert ':' !in Key(field);
  }

  /**
   In any printed document, with any text behind it, a field is reached exactly when no string before it
   hits, or no colon comes between the first one that does and the field.
   */
  lemma {:induction false} ReachedExactly(tokens: seq<Token>, field: string, text: string)
    requires IsPlain(field) && field != "" && Separates(tokens, field)
    ensures Reaches(PrintAll(tokens), field, text) <==> Tail(tokens, field).None? || ':' !in PrintAll(Tail(tokens, field).value)
  {
    SearchDocument(tokens, field, text);
    var tail := Tail(tokens, field);
    if tail.None? {
      assert "" + text == text;
      ReachesOverGap(PrintAll(tokens), field, text, "");
    } else {
      ReachesBehind(PrintAll(tokens), field, text, PrintAll(tail.value));
    }
  }

  // ----- objects of string fields -----

  datatype Field = Field(name: string, value: string)

  /** A field as the printer writes it, with the comma before the next. */
  function FieldTokens(f: Field): seq<Token> {
    [Str(f.name), Bare(':'), Str(f.value), Bare(',')]
  }

  function FieldsTokens(fields: seq<Field>): seq<Token> {
    if fields == [] then [] else FieldTokens(fields[0]) + FieldsTokens(fields[1..])
  }

  /** The start of an object: its first fields. */
  function ObjectStart(fields: seq<Field>): string {
    "{" + PrintAll(FieldsTokens(fields))
  }

  /** No name before the field hits, and no value but perhaps the last. */
  predicate NoneHits(fields: seq<Field>, field: string) {
    forall i :: 0 <= i < |fields| ==> !Hits(fields[i].name, field) && (i + 1 < |fields| ==> !Hits(fields[i].value, field))
  }

  predicate IsPunctuation(c: char) {
    c in "{}[],: \n\r\t"
  }

  lemma {:induction false} FieldsSeparate(fields: seq<Field>, field: string)
    requires field != "" && !IsPunctuation(field[0])
    ensures Separates(FieldsTokens(fields), field)
    ensures fields != [] ==> FieldsTokens(fields)[0].Str?
  {
    if fields != [] {
      var first, rest := FieldTokens(fields[0]), FieldsTokens(fields[1..]);
      FieldsSeparate(fields[1..], field);
      var all: seq<Token> := first + rest;
      forall i | 0 < i < |all| && all[i - 1].Str? && all[i].Bare?
        ensures all[i].c != field[0]
      {
        if i > 4 {
          assert all[i - 1] == rest[i - 5] && all[i] == rest[i - 4];
          assert rest[(i - 4) - 1].Str?;
        }
      }
    }
  }

  lemma {:induction false} TailOfField(f: Field, rest: seq<Token>, field: string)
    ensures Tail(FieldTokens(f) + rest, field)
         == if Hits(f.name, field) then Some([Bare(':'), Str(f.value), Bare(',')] + rest)
            else if Hits(f.value, field) then Some([Bare(',')] + rest) else Tail(rest, field)
  {
    var t0 := FieldTokens(f) + rest;
    var t1, t2, t3 := [Bare(':'), Str(f.value), Bare(',')] + rest, [Str(f.value), Bare(',')] + rest, [Bare(',')] + rest;
    assert t0[1..] == t1 && t1[1..] == t2 && t2[1..] == t3 && t3[1..] == rest;
    assert Tail(t1, field) == Tail(t2, field) && Tail(t3, field) == Tail(rest, field);
  }

  lemma {:induction false} ColonBehindName(f: Field, rest: seq<Token>)
    ensures ':' in PrintAll([Bare(':'), Str(f.value), Bare(',')] + rest)
  {
    TextSplits([Bare(':'), Str(f.value), Bare(',')] + rest, "");
  }

  lemma {:induction false} ColonBehindValue(fields: seq<Field>)
    ensures ':' in PrintAll([Bare(',')] + FieldsTokens(fields)) <==> fields != []
  {
    var rest := FieldsTokens(fields);
    var behind := [Bare(',')] + rest;
    assert behind[1..] == rest;
    assert PrintAll(behind) == "," + PrintAll(rest);
    if fields != [] {
      var more := [Bare(':'), Str(fields[0].value), Bare(',')] + FieldsTokens(fields[1..]);
      assert rest[1..] == more;
      ColonBehindName(fields[0], FieldsTokens(fields[1..]));
      assert PrintAll(rest) == JsonString(fields[0].name) + PrintAll(more);
    }
  }

  lemma {:induction false} TailOfFields(fields: seq<Field>, field: string)
    ensures var tail := Tail(FieldsTokens(fields), field);
            (tail.None? || ':' !in PrintAll(tail.value)) <==> NoneHits(fields, field)
  {
    if fields != [] {
      var rest := fields[1..];
      TailOfFields(rest, field);
      TailOfField(fields[0], FieldsTokens(rest), field);
      ColonBehindName(fields[0], FieldsTokens(rest));
      ColonBehindValue(rest);
      NoneHitsSplits(fields, field);
    }
  }

  lemma NoneHitsSplits(fields: seq<Field>, field: string)
    requires fields != []
    ensures NoneHits(fields, field) <==>
              !Hits(fields[0].name, field) && (fields[1..] == [] || !Hits(fields[0].value, field)) && NoneHits(fields[1..], field)
  {
    var rest := fields[1..];
    assert forall i :: 0 <= i < |rest| ==> rest[i] == fields[i + 1];
    if NoneHits(fields, field) {
      forall i | 0 <= i < |rest|
        ensures !Hits(rest[i].name, field) && (i + 1 < |rest| ==> !Hits(rest[i].value, field))
      {
        assert !Hits(fields[i + 1].name, field);
      }
    }
    if NoneHits(rest, field) {
      assert forall i :: 0 < i < |fields| ==> fields[i] == rest[i - 1];
    }
  }

  /**
   In a printed object, after any string fields, the readers get to the value of a field exactly when no
   name before it hits, and no value but that of the field right before it.
   */
  lemma ObjectFieldExactly(fields: seq<Field>, field: string, value: string)
    requires IsPlain(field) && field != "" && !IsPunctuation(field[0])
    requires value != "" && !IsSpace(value[0])
    ensures ValueText(ObjectStart(fields) + (Key(field) + (":" + value)), field) == Some(value) <==> NoneHits(fields, field)
  {
    SearchObject(fields, field, ":" + value);
    var tail := Tail(FieldsTokens(fields), field);
    if tail.None? {
      assert "" + (":" + value) == ":" + value;
      ReachesOverGap(ObjectStart(fields), field, ":" + value, "");
    } else {
      ReachesBehind(ObjectStart(fields), field, ":" + value, PrintAll(tail.value));
    }
    TailOfFields(fields, field);
    assert "" + value == value;
    ValueTextExactly(ObjectStart(fields), field, "", value);
  }

  lemma {:induction false} SearchObject(fields: seq<Field>, field: string, text: string)
    requires IsPlain(field) && field != "" && !IsPunctuation(field[0])
    ensures var tail := Tail(FieldsTokens(fields), field);
            After(ObjectStart(fields) + (Key(field) + text), Key(field))
            == Some(if tail.None? then text else PrintAll(tail.value) + (Key(field) + text))
  {
    SearchBehindObject(fields, field, Key(field) + text);
    assert (Key(field) + text)[|Key(field)|..] == text;
  }

  lemma {:induction false} SearchBehindObject(fields: seq<Field>, field: string, end: string)
    requires IsPlain(field) && StopsName(end, field) && !IsPunctuation(field[0])
    ensures var tail := Tail(FieldsTokens(fields), field);
            After(ObjectStart(fields) + end, Key(field))
            == if tail.None? then After(end, Key(field)) else Some(PrintAll(tail.value) + end)
  {
    var tokens := FieldsTokens(fields);
    FieldsSeparate(fields, field);
    SearchTokens(tokens, field, end);
    Concat3("{", PrintAll(tokens), end);
    AfterSkips('{', PrintAll(tokens) + end, field);
  }

  // ----- what is read instead -----

  lemma {:induction false} TailBehind(before: seq<Field>, f: Field, field: string)
    requires forall g :: g in before ==> !Hits(g.name, field) && !Hits(g.value, field)
    requires !Hits(f.name, field) && Hits(f.value, field)
    ensures Tail(FieldsTokens(before + [f]), field) == Some([Bare(',')])
  {
    var fields := before + [f];
    if before == [] {
      assert fields == [f] && fields[1..] == [];
      TailOfField(f, [], field);
      assert [Bare(',')] + [] == [Bare(',')];
    } else {
      assert fields[0] == before[0] && fields[1..] == before[1..] + [f];
      TailBehind(before[1..], f, field);
      TailOfField(before[0], FieldsTokens(fields[1..]), field);
    }
  }

  lemma {:induction false} ReadsValueBehind(body: string, field: string, g: Field, post: string)
    requires ':' !in JsonString(g.name)
    requires After(body, Key(field)) == Some(("," + JsonString(g.name)) + (":" + (JsonString(g.value) + post)))
    ensures ValueText(body, field) == Some(JsonString(g.value) + post)
    ensures ValueToken(body, field) == StringField(body, field) == Some(Reread(g.value))
  {
    var value := JsonString(g.value) + post;
    AfterColonIn("," + JsonString(g.name), value);
    assert value[0] == '"' && SkipSpace(value) == value;
    StringAtPrinted(g.value, post);
  }

  /**
   When the first string to hit is the value of `f`, the string value of the field after it is read in
   place of the one asked for, whatever else the document holds: more fields, the one asked for, or not.
   */
  lemma ReadsNextField(before: seq<Field>, f: Field, g: Field, field: string, post: string)
    requires IsPlain(field) && field != "" && !IsPunctuation(field[0])
    requires forall h :: h in before ==> !Hits(h.name, field) && !Hits(h.value, field)
    requires !Hits(f.name, field) && Hits(f.value, field) && ':' !in JsonString(g.name)
    ensures var body := ObjectStart(before + [f]) + (JsonString(g.name) + (":" + (JsonString(g.value) + post)));
            && After(body, Key(field)).Some? && ValueText(body, field) == Some(JsonString(g.value) + post)
            && ValueToken(body, field) == StringField(body, field) == Some(Reread(g.value))
  {
    var end := JsonString(g.name) + (":" + (JsonString(g.value) + post));
    SearchBehindObject(before + [f], field, end);
    TailBehind(before, f, field);
    assert PrintAll([Bare(',')]) == ",";
    Concat3(",", JsonString(g.name), ":" + (JsonString(g.value) + post));
    ReadsValueBehind(ObjectStart(before + [f]) + end, field, g, post);
  }

  lemma TagsAsName(field: string, slug: string)
    requires field == "tags" && slug == "slug"
    ensures IsPlain(field) && field != "" && !IsPunctuation(field[0])
    ensures !Hits(slug, field) && Hits(field, field)
  {
    assert slug != field;
  }

  /** A string that the array reader refuses: neither null nor a list. */
  lemma {:induction false} NoListText(s: string)
    requires s == "" || (s[0] != '[' && s[0] != 'n' && s[0] != '\n')
    ensures ArrayToken(Reread(s)) == None
  {
  }

  /**
   A create request with the slug `tags`, nothing in front that hits, and a string field after the slug.
   The handler sees a field `tags` and reads the value of that field as its list, whatever follows, so
   the request is refused unless the value happens to be a list in text form.
   */
  lemma SlugNamedTags(before: seq<Field>, tags: string, slug: string, next: Field, post: string)
    requires tags == "tags" && slug == "slug" && forall h :: h in before ==> !Hits(h.name, tags) && !Hits(h.value, tags)
    requires ':' !in JsonString(next.name)
    ensures var body := ObjectStart(before + [Field(slug, tags)]) + (JsonString(next.name) + (":" + (JsonString(next.value) + post)));
            && After(body, Key(tags)).Some? && StringArrayField(body, tags) == ArrayToken(Reread(next.value))
            && (next.value != "" && next.value[0] == 'h' ==> StringArrayField(body, tags) == None)
  {
    TagsAsName(tags, slug);
    ReadsNextField(before, Field(slug, tags), next, tags, post);
    if next.value != "" && next.value[0] == 'h' {
      NoListText(next.value);
    }
  }

  /** With the tags right behind such a slug, they are read. */
  lemma {:induction false} TagsBehindSlug(before: seq<Field>, tags: string, slug: string, values: seq<string>, post: string)
    requires tags == "tags" && slug == "slug" && forall h :: h in before ==> !Hits(h.name, tags) && !Hits(h.value, tags)
    ensures var body := ObjectStart(before + [Field(slug, tags)]) + (Key(tags) + (":" + (PrintArray(values) + post)));
            StringArrayField(body, tags) == Some(RereadAll(values))
  {
    TagsAsName(tags, slug);
    ObjectFieldExactly(before + [Field(slug, tags)], tags, PrintArray(values) + post);
    TokenOfArray(values, post);
    ArrayReads(values);
  }
}
