/** Field values written out as section 5.6 of RFC 9110 has them, against what the header filter reads in them. */
module HeaderText {
  import opened Strings
  import opened HeaderFilter

  // ---------------------------------------------------------------- lists of names

  const DELIMITERS := "\"(),/:;<=>?@[\\]{}"

  /** A token is made of visible characters that are no delimiters. */
  predicate Token(s: string) {
    s != [] && forall i :: 0 <= i < |s| ==> '!' <= s[i] <= '~' && s[i] !in DELIMITERS
  }

  lemma {:induction false} TokenCharsAre(c: char)
    ensures TokenChar(c) <==> '!' <= c <= '~' && c !in DELIMITERS
  {
  }

  lemma {:induction false} TokensAre(s: string)
    ensures IsToken(s) <==> Token(s)
  {
    hide TokenChar, DELIMITERS;
    forall i | 0 <= i < |s| ensures TokenChar(s[i]) <==> '!' <= s[i] <= '~' && s[i] !in DELIMITERS {
      TokenCharsAre(s[i]);
    }
  }

  predicate Blanks(s: string) { forall i :: 0 <= i < |s| ==> s[i] == ' ' || s[i] == '\t' }

  /** Printable, without `separator`, and neither starting nor ending with a blank. */
  predicate Bare(s: string, separator: char) {
    && (forall i :: 0 <= i < |s| ==> (' ' <= s[i] <= '~' || s[i] == '\t') && s[i] != separator)
    && (s != [] ==> !Blanks(s[..1]) && !Blanks(s[|s| - 1..]))
  }

  /** A list element with the blanks around it. It may be anything, or nothing. */
  datatype Element = Element(before: string, name: string, after: string)

  predicate ValidElement(e: Element, separator: char) {
    Blanks(e.before) && Bare(e.name, separator) && Blanks(e.after) && separator != ' ' && separator != '\t'
  }

  function PutElement(e: Element): string { e.before + e.name + e.after }

  function PutList(es: seq<Element>, separator: char): string
    requires es != []
  {
    if |es| == 1 then PutElement(es[0]) else PutElement(es[0]) + [separator] + PutList(es[1..], separator)
  }

  // ---------------------------------------------------------------- splitting and trimming

  lemma {:induction false} TrimsStart(blanks: string, s: string)
    requires Blanks(blanks) && (s != [] ==> !Blanks(s[..1]))
    ensures TrimStart(blanks + s) == s
  {
    if blanks == [] {
      assert blanks + s == s;
      assert s != [] ==> s[..1] == [s[0]];
    } else {
      assert (blanks + s)[1..] == blanks[1..] + s;
      TrimsStart(blanks[1..], s);
    }
  }

  lemma {:induction false} TrimsEnd(s: string, blanks: string)
    requires Blanks(blanks) && (s != [] ==> !Blanks(s[|s| - 1..]))
    ensures TrimEnd(s + blanks) == s
  {
    if blanks == [] {
      assert s + blanks == s;
      assert s != [] ==> s[|s| - 1..] == [s[|s| - 1]];
    } else {
      assert (s + blanks)[..|s + blanks| - 1] == s + blanks[..|blanks| - 1];
      TrimsEnd(s, blanks[..|blanks| - 1]);
    }
  }

  lemma {:induction false} AllBlank(s: string)
    requires Blanks(s)
    ensures TrimStart(s) == []
  {
    if s != [] { AllBlank(s[1..]); }
  }

  lemma {:induction false} TrimsElement(e: Element, separator: char)
    requires ValidElement(e, separator)
    ensures Trim(PutElement(e)) == e.name && separator !in PutElement(e) && IsText(PutElement(e))
  {
    if e.name == [] {
      assert PutElement(e) == e.before + e.after;
      AllBlank(PutElement(e));
    } else {
      var rest := e.name + e.after;
      assert PutElement(e) == e.before + rest && rest[..1] == e.name[..1];
      TrimsStart(e.before, rest);
      TrimsEnd(e.name, e.after);
    }
  }

  // ---------------------------------------------------------------- what Connection nominates

  lemma {:induction false} SplitsList(es: seq<Element>, separator: char)
    requires es != [] && forall i :: 0 <= i < |es| ==> ValidElement(es[i], separator)
    requires ' ' <= separator <= '~'
    ensures Split(PutList(es, separator), separator) == seq(|es|, i requires 0 <= i < |es| => PutElement(es[i]))
    ensures IsText(PutList(es, separator))
  {
    hide PutElement, ValidElement, Trim;
    TrimsElement(es[0], separator);
    if |es| == 1 {
      SplitWhole(PutElement(es[0]), separator);
    } else {
      SplitsList(es[1..], separator);
      SplitFirst(PutElement(es[0]), separator, PutList(es[1..], separator));
    }
  }

  /** A Connection value nominates exactly the tokens of its list, in lower case, whatever the blanks around them; other
      elements, and values that are not text, nominate nothing. */
  lemma {:induction false} NominationsAre(es: seq<Element>)
    requires es != [] && forall i :: 0 <= i < |es| ==> ValidElement(es[i], ',')
    ensures NominatedBy(PutList(es, ',')) == set i | 0 <= i < |es| && Token(es[i].name) :: LowerAll(es[i].name)
  {
    hide PutElement, ValidElement, Trim, PutList, Split, IsText, IsToken, Token, LowerAll;
    SplitsList(es, ',');
    var parts := Split(PutList(es, ','), ',');
    forall i | 0 <= i < |es| ensures parts[i] == PutElement(es[i]) && Trim(parts[i]) == es[i].name && (IsToken(es[i].name) <==> Token(es[i].name)) {
      TrimsElement(es[i], ',');
      TokensAre(es[i].name);
    }
    var (a, b) := (NominatedBy(PutList(es, ',')), set i | 0 <= i < |es| && Token(es[i].name) :: LowerAll(es[i].name));
    forall x | x in a ensures x in b {
      var part :| part in parts && IsToken(Trim(part)) && x == LowerAll(Trim(part));
      var i :| 0 <= i < |parts| && parts[i] == part;
    }
    forall x | x in b ensures x in a {
      var i :| 0 <= i < |es| && Token(es[i].name) && x == LowerAll(es[i].name);
      assert parts[i] in parts;
    }
  }

  lemma {:induction false} OtherValuesNominateNothing(value: string, i: nat)
    requires i < |value| && (value[i] < ' ' || value[i] > '~') && value[i] != '\t'
    ensures NominatedBy(value) == {}
  {
  }

  // ---------------------------------------------------------------- event streams

  /** A media type is an event stream by its name alone, whatever its case, blanks and parameters; only the first field counts. */
  lemma {:induction false} EventStreamIs(e: Element, parameters: seq<Element>, more: Headers)
    requires ValidElement(e, ';') && forall i :: 0 <= i < |parameters| ==> ValidElement(parameters[i], ';')
    ensures IsEventStream([Header("content-type", PutList([e] + parameters, ';'))] + more) <==> LowerAll(e.name) == "text/event-stream"
  {
    hide PutElement, ValidElement, Trim, PutList, Split, IsText, LowerAll;
    var (es, h) := ([e] + parameters, [Header("content-type", PutList([e] + parameters, ';'))] + more);
    SplitsList(es, ';');
    TrimsElement(e, ';');
    assert h[0].name == "content-type" && GetAll(h, "content-type")[0] == PutList(es, ';');
    assert Split(PutList(es, ';'), ';')[0] == PutElement(e);
  }

  lemma {:induction false} LowerCases()
    ensures LowerAll("ABCDEFGHIJKLMNOPQRSTUVWXYZ") == "abcdefghijklmnopqrstuvwxyz"
    ensures forall c :: Lower(c) == c <==> !('A' <= c <= 'Z')
  {
  }
}
