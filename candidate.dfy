/** Reading a candidate-details page: the name line and the e-mail address
    in the text PyPDF2 extracts from the page of a details bookmark
    (explode_bulkprint.py lines 86-99). */
module Candidate {
  import opened Base
  import opened Text

  /** The recognised titles, compared as whole words and case-sensitively. */
  const Titles: seq<string> := ["Mr", "Mrs", "Ms", "Miss", "Dr", "Professor"]

  /** The exact line that precedes the e-mail address. */
  const EmailLabel: string := "Email Address:"

  datatype Name = Name(title: string, firstName: string, lastName: string)

  datatype Details = Details(title: string, firstName: string, lastName: string, email: string)

  /** `page.extractText().split('\n')`. */
  function Lines(text: string): seq<string>
  {
    SplitOn(text, '\n')
  }

  /** `details[0].strip().split()`: the words of the first line. */
  function NameTokens(text: string): seq<string>
  {
    Words(Strip(Lines(text)[0]))
  }

  /** The words a parsed name is read from, at the front of the line. */
  function Lead(n: Name): seq<string>
  {
    (if n.title == "" then [] else [n.title]) + [n.firstName]
  }

  /** Title, first name and last name from the words of the name line. A
      recognised first word is the title and the second word the first
      name; otherwise there is no title and the first word is the first
      name. The last name is the last word, so middle words are dropped.
      A blank line fails at `c_fullname[0]`, a line holding only a title
      at `c_fullname[1]`. */
  function ParseName(tokens: seq<string>): (r: Result<Name>)
    ensures r.Ok? <==> tokens != [] && (tokens[0] in Titles ==> |tokens| >= 2)
    ensures tokens == [] ==> r == Err(EmptyNameLine)
    ensures r.Err? && tokens != [] ==> r == Err(MissingFirstName)
    ensures r.Ok? ==> (r.value.title == "" <==> tokens[0] !in Titles)
    ensures r.Ok? ==> r.value.title == "" || r.value.title in Titles
    ensures r.Ok? ==> |Lead(r.value)| <= |tokens| && tokens[..|Lead(r.value)|] == Lead(r.value)
    ensures r.Ok? ==> r.value.lastName == tokens[|tokens| - 1]
  {
    if tokens == [] then Err(EmptyNameLine)
    else if tokens[0] in Titles then
      if |tokens| < 2 then Err(MissingFirstName)
      else Ok(Name(tokens[0], tokens[1], tokens[|tokens| - 1]))
    else
      Ok(Name("", tokens[0], tokens[|tokens| - 1]))
  }

  /** `details[details.index('Email Address:') + 1].strip()`: the stripped
      line right after the first line that is exactly the label. ValueError
      when no line is the label, IndexError when that line is the last. */
  function FindEmail(lines: seq<string>): (r: Result<string>)
    ensures EmailLabel !in lines <==> r == Err(MissingEmailLabel)
    ensures r.Ok? <==> EmailReadable(lines)
    ensures r.Ok? ==> exists e :: FirstLabelAt(lines, e) && e + 1 < |lines| && r.value == Strip(lines[e + 1])
    ensures r == Err(MissingEmailLine) <==> FirstLabelAt(lines, |lines| - 1)
  {
    match IndexOf(lines, EmailLabel)
    case None => Err(MissingEmailLabel)
    case Some(e) =>
      assert FirstLabelAt(lines, e);
      if e + 1 < |lines| then Ok(Strip(lines[e + 1])) else Err(MissingEmailLine)
  }

  /** Some line is the label, and the first such line has a line after
      it. */
  ghost predicate EmailReadable(lines: seq<string>)
  {
    exists e :: FirstLabelAt(lines, e) && e + 1 < |lines|
  }

  /** The words of a name line from which a name can be read: at least
      one, and two when the first is a title. */
  predicate NameReadable(tokens: seq<string>)
  {
    tokens != [] && (tokens[0] in Titles ==> |tokens| >= 2)
  }

  /** Line `e` is the label and no line before it is. */
  ghost predicate FirstLabelAt(lines: seq<string>, e: int)
  {
    0 <= e < |lines| && lines[e] == EmailLabel
    && forall j :: 0 <= j < e ==> lines[j] != EmailLabel
  }

  /** Lines 86-99 in the order the script evaluates them: the name first,
      so a page failing both ways reports the name. */
  function ParseDetails(text: string): Result<Details>
  {
    match ParseName(NameTokens(text))
    case Err(f) => Err(f)
    case Ok(n) =>
      match FindEmail(Lines(text))
      case Err(f) => Err(f)
      case Ok(email) => Ok(Details(n.title, n.firstName, n.lastName, email))
  }

  /** What `ParseDetails` promises, stated on the words of line 0 and on
      the lines of the page: a page reads exactly when its name line has a
      name and its first label line has a line after it; the fields follow
      the title rule, the last word, and the line after the first label;
      a page failing both ways reports the name. */
  lemma ParseDetailsSpec(text: string)
    ensures var r, tokens, lines := ParseDetails(text), NameTokens(text), Lines(text);
      && (r.Ok? <==> NameReadable(tokens) && EmailReadable(lines))
      && (tokens == [] ==> r == Err(EmptyNameLine))
      && (tokens != [] && !NameReadable(tokens) ==> r == Err(MissingFirstName))
      && (NameReadable(tokens) && EmailLabel !in lines ==> r == Err(MissingEmailLabel))
      && (NameReadable(tokens) && FirstLabelAt(lines, |lines| - 1) ==> r == Err(MissingEmailLine))
    ensures var r, tokens, lines := ParseDetails(text), NameTokens(text), Lines(text);
      r.Ok? ==>
        var titled := tokens[0] in Titles;
        && r.value.title == (if titled then tokens[0] else "")
        && r.value.firstName == (if titled then tokens[1] else tokens[0])
        && r.value.lastName == tokens[|tokens| - 1]
        && exists e :: FirstLabelAt(lines, e) && e + 1 < |lines| && r.value.email == Strip(lines[e + 1])
  {
    var tokens := NameTokens(text);
    var name := ParseName(tokens);
    if name.Ok? && tokens[0] in Titles {
      assert tokens[..2] == Lead(name.value);
    }
  }

  /** A page whose lines are "Mr John Q Public", the label and an
      address: title Mr, first name John, last name Public (the middle
      initial is dropped), and the address stripped. */
  lemma TitledNameDropsMiddle(email: string)
    requires '\n' !in email
    ensures ParseDetails(JoinWith(["Mr John Q Public", EmailLabel, email], '\n'))
      == Ok(Details("Mr", "John", "Public", Strip(email)))
  {
    var words := ["Mr", "John", "Q", "Public"];
    assert forall k :: 0 <= k < |words| ==> IsWord(words[k]);
    assert JoinWith(words, ' ') == "Mr John Q Public";
    ParseLaidOutPage(words, email);
  }

  /** A page whose name line is "Jane Doe": no title, first name Jane,
      last name Doe. */
  lemma UntitledName(email: string)
    requires '\n' !in email
    ensures ParseDetails(JoinWith(["Jane Doe", EmailLabel, email], '\n'))
      == Ok(Details("", "Jane", "Doe", Strip(email)))
  {
    var words := ["Jane", "Doe"];
    assert forall k :: 0 <= k < |words| ==> IsWord(words[k]);
    assert JoinWith(words, ' ') == "Jane Doe";
    ParseLaidOutPage(words, email);
  }

  /** A page whose name line is the single word "Cher": no title, and
      Cher is both the first and the last name. */
  lemma OneWordName(email: string)
    requires '\n' !in email
    ensures ParseDetails(JoinWith(["Cher", EmailLabel, email], '\n'))
      == Ok(Details("", "Cher", "Cher", Strip(email)))
  {
    var words := ["Cher"];
    assert IsWord(words[0]);
    assert JoinWith(words, ' ') == "Cher";
    ParseLaidOutPage(words, email);
  }

  /** A details page laid out as the export writes it (the name words
      joined by spaces, the label line, the address line) reads back as
      the title, first name, last name and stripped address it was built
      from. */
  lemma {:induction false} ParseLaidOutPage(words: seq<string>, email: string)
    requires |words| >= 1 && (words[0] in Titles ==> |words| >= 2)
    requires forall k :: 0 <= k < |words| ==> IsWord(words[k])
    requires JoinWith(words, ' ') != EmailLabel
    requires '\n' !in email
    ensures var text := JoinWith([JoinWith(words, ' '), EmailLabel, email], '\n');
      var titled := words[0] in Titles;
      ParseDetails(text) == Ok(Details(
        if titled then words[0] else "",
        if titled then words[1] else words[0],
        words[|words| - 1],
        Strip(email)))
  {
    var nameLine := JoinWith(words, ' ');
    var lines := [nameLine, EmailLabel, email];
    var text := JoinWith(lines, '\n');
    forall k | 0 <= k < |words|
      ensures '\n' !in words[k]
    {
      assert IsSpace('\n');
    }
    JoinWithEnds(words, ' ', '\n');
    assert '\n' !in EmailLabel;
    SplitJoin(lines, '\n');
    assert Lines(text) == lines;
    assert TrimStart(nameLine) == nameLine;
    assert TrimEnd(nameLine) == nameLine;
    WordsOfJoined(words);
    assert NameTokens(text) == words;
    assert IndexOf(lines, EmailLabel) == Some(1);
  }
}
