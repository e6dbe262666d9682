/** The `generateEmail` callable of functions/index.js: the two argument
    checks, the variable fragments of the prompt (the recipient and sender
    fields with their fallbacks, and `formatRegulations`), and the shaping of
    the completion's reply. The fixed instruction text of the prompt is not
    modelled; the completion service is a function from prompt to reply. */
module EmailPrompt {
  import opened JsValues

  /** The reply of the completion service: the call failed, or its message
      content was parsed (`None` when `JSON.parse` throws). */
  datatype Reply = CallFailed | Parsed(json: Option<JsValue>)

  /** The recipient fields substituted into the prompt template. */
  datatype Recipient = Recipient(name: string, party: string, district: string)

  /** The communication style fields of the sender. */
  datatype Style = Style(primaryTone: string, personalityElements: string)

  /** The sender fields substituted into the prompt template. */
  datatype Sender = Sender(
    name: string,
    location: string,
    worksInHempIndustry: string,
    occupation: string,
    style: Style,
    banImpactStatement: string,
    additionalComments: string,
    supported: string,
    opposed: string)

  /** The values substituted into the prompt template. */
  datatype Prompt = Prompt(recipient: Recipient, sender: Sender)

  datatype Email = Email(subject: JsValue, body: JsValue)

  const GenerationFailed := "Failed to generate email."

  function UpperChar(c: char): char {
    if 'a' <= c <= 'z' then (c as int - 32) as char else c
  }

  /** `toUpperCase` on ASCII text (the only labels passed are "supports" and "opposes"). */
  function UpperAscii(s: string): (r: string)
    ensures |r| == |s|
    ensures forall i :: 0 <= i < |s| ==> r[i] == UpperChar(s[i])
  {
    if |s| == 0 then "" else UpperAscii(s[..|s| - 1]) + [UpperChar(s[|s| - 1])]
  }

  function Header(kind: string): string {
    "- Regulations the sender " + UpperAscii(kind) + ": "
  }

  /** One entry of the list: `\n  - ${r.regulation} (Caveat: ${r.caveat || "None"})`. */
  function RegulationLine(r: JsValue): (line: Option<string>)
    ensures line.None? <==> r.Undefined? || r.Null?
    ensures line.Some? ==> |line.value| > 5 && line.value[..5] == "\n  - " && line.value[|line.value| - 1] == ')'
    ensures line.Some? ==>
      var regulation, caveat := Member(r, "regulation").value, Member(r, "caveat").value;
      line.value == "\n  - " + ToStr(regulation) + " (Caveat: " + (if Truthy(caveat) then ToStr(caveat) else "None") + ")"
  {
    var regulation :- Member(r, "regulation");
    var caveat :- Member(r, "caveat");
    Some("\n  - " + ToStr(regulation) + " (Caveat: " + ToStr(Or(caveat, Str("None"))) + ")")
  }

  /** The entries mapped and joined with "", or `None` when one of them is
      `null` or `undefined`. */
  function RegulationLines(rs: seq<JsValue>): Option<string> {
    MapJoin(RegulationLine, rs)
  }

  /** `rs.map(f).join('')`, or `None` when `f` throws on one of the entries. */
  function MapJoin(f: JsValue -> Option<string>, rs: seq<JsValue>): Option<string> {
    if |rs| == 0 then Some("")
    else
      var init :- MapJoin(f, rs[..|rs| - 1]);
      var line :- f(rs[|rs| - 1]);
      Some(init + line)
  }

  /** `formatRegulations(regulations, type)`: a falsy or empty list gives
      "None specified"; a list gives the header followed by one line per
      entry; anything else that is truthy has no `map` and throws. */
  function FormatRegulations(regulations: JsValue, kind: string): (r: Option<string>)
    ensures (!Truthy(regulations) || Member(regulations, "length") == Some(Num(0))) ==>
      r == Some(Header(kind) + "None specified")
    ensures regulations.Arr? && |regulations.items| > 0 ==>
      && (r.Some? <==> RegulationLines(regulations.items).Some?)
      && (r.Some? ==> r.value == Header(kind) + RegulationLines(regulations.items).value)
  {
    if !Truthy(regulations) || Member(regulations, "length") == Some(Num(0)) then
      Some(Header(kind) + "None specified")
    else if regulations.Arr? then
      var lines :- RegulationLines(regulations.items);
      Some(Header(kind) + lines)
    else
      None
  }

  /** `a || b || "Unknown"`, rendered by the template. */
  function OrUnknown(v: JsValue): string {
    ToStr(Or(v, Str("Unknown")))
  }

  /** The recipient lines of the prompt. */
  function RecipientOf(representative: JsValue): (r: Option<Recipient>)
    ensures r.None? <==> representative.Undefined? || representative.Null?
  {
    var repName :- Member(representative, "representative_name");
    var name :- Member(representative, "name");
    var party :- Member(representative, "party");
    var district :- Member(representative, "district");
    Some(Recipient(OrUnknown(Or(repName, name)), OrUnknown(party), OrUnknown(district)))
  }

  /** The communication style lines: `personalityElements.join(", ")` throws
      unless the elements are an array. */
  function StyleOf(idp: JsValue): (r: Option<Style>)
    ensures r.Some? <==> (Member(idp, "communicationTone").Some?
                          && Member(Member(idp, "communicationTone").value, "personalityElements").Some?
                          && Member(Member(idp, "communicationTone").value, "personalityElements").value.Arr?)
  {
    var tone :- Member(idp, "communicationTone");
    var primaryTone :- Member(tone, "primaryTone");
    var elements :- Member(tone, "personalityElements");
    if elements.Arr? then Some(Style(ToStr(primaryTone), ArrayJoin(elements.items, ", "))) else None
  }

  /** The sender, style and key message lines of the prompt. */
  function SenderOf(userProfile: JsValue): (r: Option<Sender>)
    ensures userProfile.Undefined? || userProfile.Null? ==> r.None?
    ensures r.Some? ==> (Member(userProfile, "intelligentDraftingProfile").Some?
                         && StyleOf(Member(userProfile, "intelligentDraftingProfile").value) == Some(r.value.style))
    ensures r.Some? ==> r.value.worksInHempIndustry == "Yes" || r.value.worksInHempIndustry == "No"
  {
    var fullName :- Member(userProfile, "userFullName");
    var location :- Member(userProfile, "userLocation");
    var idp :- Member(userProfile, "intelligentDraftingProfile");
    var hemp :- Member(idp, "worksInHempIndustry");
    var occupation :- Member(idp, "occupation");
    var style :- StyleOf(idp);
    var banImpact :- Member(idp, "banImpactStatement");
    var comments :- Member(idp, "additionalComments");
    var supportedRegs :- Member(idp, "supportedRegulations");
    var supported :- FormatRegulations(supportedRegs, "supports");
    var opposedRegs :- Member(idp, "opposedRegulations");
    var opposed :- FormatRegulations(opposedRegs, "opposes");
    Some(Sender(
      ToStr(fullName),
      ToStr(location),
      if Truthy(hemp) then "Yes" else "No",
      ToStr(Or(occupation, Str("Not specified"))),
      style,
      ToStr(banImpact),
      ToStr(comments),
      supported,
      opposed))
  }

  /** The prompt's variable fragments, or `None` when building it throws. */
  function BuildPrompt(representative: JsValue, userProfile: JsValue): (r: Option<Prompt>)
    ensures r.Some? <==> RecipientOf(representative).Some? && SenderOf(userProfile).Some?
    ensures r.Some? ==> r.value.recipient == RecipientOf(representative).value && r.value.sender == SenderOf(userProfile).value
  {
    var recipient :- RecipientOf(representative);
    var sender :- SenderOf(userProfile);
    Some(Prompt(recipient, sender))
  }

  /** `generateEmail`: `data` is `request.data` and `complete` stands for the
      completion service. Destructuring `data` throws when it is `null` or
      `undefined`, before either check. */
  function GenerateEmail(data: JsValue, complete: Prompt -> Reply): (r: Result<Email, Failure>)
    ensures data.Undefined? || data.Null? ==> r == Err(Uncaught)
    ensures var representative := Member(data, "representative");
      representative.Some? && !Truthy(representative.value) ==>
        r == Err(Thrown(InvalidArgument("Representative data is required.")))
    ensures var representative, userProfile := Member(data, "representative"), Member(data, "userProfile");
      representative.Some? && Truthy(representative.value) && !Truthy(userProfile.value) ==>
        r == Err(Thrown(InvalidArgument("User profile data is required.")))
    ensures r.Ok? ==> exists p :: (BuildPrompt(Member(data, "representative").value, Member(data, "userProfile").value) == Some(p)
      && complete(p).Parsed? && complete(p).json.Some? && !complete(p).json.value.Undefined? && !complete(p).json.value.Null?)
    ensures r.Err? && r.error.Thrown? && r.error.error.Internal? ==> r.error.error.message == GenerationFailed
    ensures var representative, userProfile := Member(data, "representative"), Member(data, "userProfile");
      representative.Some? && Truthy(representative.value) && Truthy(userProfile.value) ==>
        && (BuildPrompt(representative.value, userProfile.value).None? ==> r == Err(Uncaught))
        && (forall p ::
              (BuildPrompt(representative.value, userProfile.value) == Some(p) && (complete(p).CallFailed? || complete(p) == Parsed(None)))
              ==> r == Err(Thrown(Internal(GenerationFailed))))
  {
    if data.Undefined? || data.Null? then Err(Uncaught)
    else
      var representative := Member(data, "representative").value;
      var userProfile := Member(data, "userProfile").value;
      if !Truthy(representative) then Err(Thrown(InvalidArgument("Representative data is required.")))
      else if !Truthy(userProfile) then Err(Thrown(InvalidArgument("User profile data is required.")))
      else
        match BuildPrompt(representative, userProfile)
        case None => Err(Uncaught)
        case Some(prompt) =>
          match complete(prompt)
          case CallFailed => Err(Thrown(Internal(GenerationFailed)))
          case Parsed(None) => Err(Thrown(Internal(GenerationFailed)))
          case Parsed(Some(content)) =>
            match Member(content, "subject")
            case None => Err(Thrown(Internal(GenerationFailed)))
            case Some(subject) => Ok(Email(subject, Member(content, "body").value))
  }

  // ---------------------------------------------------------------------------
  // Properties

  lemma LabelsUpperCased()
    ensures Header("supports") == "- Regulations the sender SUPPORTS: "
    ensures Header("opposes") == "- Regulations the sender OPPOSES: "
  {
    var up := UpperAscii("supports");
    assert up == "SUPPORTS" by {
      assert up[0] == 'S' && up[1] == 'U' && up[2] == 'P' && up[3] == 'P';
      assert up[4] == 'O' && up[5] == 'R' && up[6] == 'T' && up[7] == 'S';
    }
    var down := UpperAscii("opposes");
    assert down == "OPPOSES" by {
      assert down[0] == 'O' && down[1] == 'P' && down[2] == 'P' && down[3] == 'O';
      assert down[4] == 'S' && down[5] == 'E' && down[6] == 'S';
    }
  }

  /** The entries are rendered in input order: the lines of a concatenated
      list are the lines of its parts, one after the other. */
  /** Mapping and joining a concatenation joins the two parts' results. */
  lemma {:induction false} MapJoinAppend(f: JsValue -> Option<string>, a: seq<JsValue>, b: seq<JsValue>)
    requires MapJoin(f, a).Some? && MapJoin(f, b).Some?
    ensures MapJoin(f, a + b) == Some(MapJoin(f, a).value + MapJoin(f, b).value)
    decreases |b|
  {
    if |b| == 0 {
      assert a + b == a;
      assert MapJoin(f, a).value + "" == MapJoin(f, a).value;
    } else {
      var init := b[..|b| - 1];
      var last := b[|b| - 1];
      assert (a + b)[..|a + b| - 1] == a + init;
      assert (a + b)[|a + b| - 1] == last;
      MapJoinAppend(f, a, init);
      var la, li, ll := MapJoin(f, a).value, MapJoin(f, init).value, f(last).value;
      assert (la + li) + ll == la + (li + ll);
    }
  }

  /** The lines of two lists of regulations, one after the other, are the
      lines of their concatenation: entries keep their input order. */
  lemma RegulationLinesAppend(a: seq<JsValue>, b: seq<JsValue>)
    requires RegulationLines(a).Some? && RegulationLines(b).Some?
    ensures RegulationLines(a + b) == Some(RegulationLines(a).value + RegulationLines(b).value)
  {
    MapJoinAppend(RegulationLine, a, b);
  }

  /** The number of occurrences of `c` in `s`. */
  function CountChar(s: string, c: char): nat {
    if |s| == 0 then 0 else CountChar(s[..|s| - 1], c) + if s[|s| - 1] == c then 1 else 0
  }

  lemma {:induction false} CountCharAppend(a: string, b: string, c: char)
    ensures CountChar(a + b, c) == CountChar(a, c) + CountChar(b, c)
    decreases |b|
  {
    if |b| == 0 {
      assert a + b == a;
    } else {
      assert (a + b)[..|a + b| - 1] == a + b[..|b| - 1];
      CountCharAppend(a, b[..|b| - 1], c);
    }
  }

  /** Whether an entry's texts contain no line break. */
  predicate SingleLine(r: JsValue) {
    r.Obj? && CountChar(ToStr(Prop(r.props, "regulation")), '\n') == 0
      && CountChar(ToStr(Or(Prop(r.props, "caveat"), Str("None"))), '\n') == 0
  }

  /** Each entry starts exactly one line: when no regulation or caveat text
      contains a line break, the list holds one line break per entry. */
  lemma {:induction false} OneLinePerRegulation(rs: seq<JsValue>)
    requires forall i :: 0 <= i < |rs| ==> SingleLine(rs[i])
    ensures RegulationLines(rs).Some?
    ensures CountChar(RegulationLines(rs).value, '\n') == |rs|
  {
    if |rs| > 0 {
      var init := rs[..|rs| - 1];
      var r := rs[|rs| - 1];
      OneLinePerRegulation(init);
      var regulation := ToStr(Prop(r.props, "regulation"));
      var caveat := ToStr(Or(Prop(r.props, "caveat"), Str("None")));
      assert RegulationLine(r) == Some("\n  - " + regulation + " (Caveat: " + caveat + ")");
      EntryBreaks(regulation, caveat);
      CountCharAppend(RegulationLines(init).value, RegulationLine(r).value, '\n');
    }
  }

  /** An entry's line holds one line break of its own, plus those of its texts. */
  lemma EntryBreaks(regulation: string, caveat: string)
    ensures CountChar("\n  - " + regulation + " (Caveat: " + caveat + ")", '\n') ==
      1 + CountChar(regulation, '\n') + CountChar(caveat, '\n')
  {
    CountCharAppend("\n  - " + regulation + " (Caveat: ", caveat, '\n');
    CountCharAppend("\n  - " + regulation, " (Caveat: ", '\n');
    CountCharAppend("\n  - ", regulation, '\n');
    CountCharAppend("\n  - " + regulation + " (Caveat: " + caveat, ")", '\n');
    assert CountChar("\n  - ", '\n') == 1 by {
      CountCharAppend("\n", "  - ", '\n');
      NoBreak("  - ");
      assert "\n" + "  - " == "\n  - ";
      assert "\n"[..0] == "";
    }
    NoBreak(" (Caveat: ");
    NoBreak(")");
  }

  lemma {:induction false} NoBreak(s: string)
    requires forall i :: 0 <= i < |s| ==> s[i] != '\n'
    ensures CountChar(s, '\n') == 0
  {
    if |s| > 0 {
      NoBreak(s[..|s| - 1]);
    }
  }

  /** The recipient's name falls back from `representative_name` to `name` to
      "Unknown"; party and district fall back to "Unknown". */
  lemma RecipientFallbacks(representative: map<string, JsValue>)
    ensures RecipientOf(Obj(representative)).Some?
    ensures var p := RecipientOf(Obj(representative)).value;
      && (Truthy(Prop(representative, "representative_name")) ==>
            p.name == ToStr(Prop(representative, "representative_name")))
      && (!Truthy(Prop(representative, "representative_name")) && Truthy(Prop(representative, "name")) ==>
            p.name == ToStr(Prop(representative, "name")))
      && (!Truthy(Prop(representative, "representative_name")) && !Truthy(Prop(representative, "name")) ==>
            p.name == "Unknown")
      && p.party == (if Truthy(Prop(representative, "party")) then ToStr(Prop(representative, "party")) else "Unknown")
      && p.district == (if Truthy(Prop(representative, "district")) then ToStr(Prop(representative, "district")) else "Unknown")
  {
  }

  /** The personality elements are joined with ", ". */
  lemma StyleJoinsElements(idp: map<string, JsValue>, tone: map<string, JsValue>, elements: seq<string>)
    requires Prop(idp, "communicationTone") == Obj(tone)
    requires Prop(tone, "personalityElements") == Arr(StrItems(elements))
    ensures StyleOf(Obj(idp)).Some?
    ensures StyleOf(Obj(idp)).value.personalityElements == Join(elements, ", ")
  {
    JoinStrings(elements, ", ");
  }

  function StrItems(texts: seq<string>): (items: seq<JsValue>)
    ensures |items| == |texts| && forall i :: 0 <= i < |texts| ==> items[i] == Str(texts[i])
  {
    seq(|texts|, i requires 0 <= i < |texts| => Str(texts[i]))
  }

  /** Joining an array of strings joins the strings themselves. */
  lemma JoinStrings(texts: seq<string>, sep: string)
    ensures ArrayJoin(StrItems(texts), sep) == Join(texts, sep)
  {
    var items := StrItems(texts);
    var parts := seq(|items|, i requires 0 <= i < |items| =>
      if items[i].Undefined? || items[i].Null? then "" else ToStr(items[i]));
    assert parts == texts;
  }

  /** The sender's hemp flag renders as Yes/No and the occupation falls back
      to "Not specified". */
  lemma SenderFields(userProfile: map<string, JsValue>, idp: map<string, JsValue>)
    requires Prop(userProfile, "intelligentDraftingProfile") == Obj(idp)
    requires SenderOf(Obj(userProfile)).Some?
    ensures var s := SenderOf(Obj(userProfile)).value;
      && s.worksInHempIndustry == (if Truthy(Prop(idp, "worksInHempIndustry")) then "Yes" else "No")
      && s.occupation == (if Truthy(Prop(idp, "occupation")) then ToStr(Prop(idp, "occupation")) else "Not specified")
  {
  }

  /** A reply that parses to `null` (or to nothing) has no `subject` and fails
      as an internal error; any other parsed value gives exactly its `subject`
      and `body`, which for an object are its own properties. */
  lemma ReplyShaping(request: map<string, JsValue>, complete: Prompt -> Reply, p: Prompt, content: JsValue)
    requires Truthy(Prop(request, "representative")) && Truthy(Prop(request, "userProfile"))
    requires BuildPrompt(Prop(request, "representative"), Prop(request, "userProfile")) == Some(p)
    requires complete(p) == Parsed(Some(content))
    ensures content.Null? || content.Undefined? ==> GenerateEmail(Obj(request), complete) == Err(Thrown(Internal(GenerationFailed)))
    ensures !content.Null? && !content.Undefined? ==>
      GenerateEmail(Obj(request), complete) == Ok(Email(Member(content, "subject").value, Member(content, "body").value))
    ensures content.Obj? ==>
      GenerateEmail(Obj(request), complete) == Ok(Email(Prop(content.props, "subject"), Prop(content.props, "body")))
  {
    assert Member(Obj(request), "representative") == Some(Prop(request, "representative"));
    assert Member(Obj(request), "userProfile") == Some(Prop(request, "userProfile"));
    if content.Obj? {
      assert Member(content, "subject") == Some(Prop(content.props, "subject"));
      assert Member(content, "body") == Some(Prop(content.props, "body"));
    }
  }
}
