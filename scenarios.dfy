/** Worked requests, each checked against the model. */
module Scenarios {
  import opened Wrappers
  import opened Text
  import opened Context
  import opened Language
  import opened Prompt
  import opened Handler

  /** ASCII lower-casing leaves a string without capitals as it is. */
  lemma NoCapitals(s: string)
    requires forall k :: 0 <= k < |s| ==> !('A' <= s[k] <= 'Z')
    ensures Lower(s) == s
  {
  }

  /** `.txt` files are read as plain text. */
  lemma RulesIsText()
    ensures KindOf("rules.txt") == PlainText
  {
    var name := "rules.txt";
    assert name[5] == '.' && name[6] != '.' && name[7] != '.' && name[8] != '.';
    assert LastDot(name) == Some(5);
    assert name[0] != '.';
    assert Extension(name) == ".txt";
    NoCapitals(".txt");
  }

  /** The question splits into its five space-separated words. */
  lemma QuestionWords()
    ensures Split("What is the attendance policy?") == ["What", "is", "the", "attendance", "policy?"]
  {
    var words := ["What", "is", "the", "attendance", "policy?"];
    assert Join(" ", words) == "What is the attendance policy?";
    SplitJoinRoundTrip(words);
  }

  /** The word "attendance" occurs in the content, so the content matches. */
  lemma RulesMatch(words: seq<string>, content: string)
    // The literals are passed as preconditions so that the proof reasons about names, not the literals.
    requires words == ["What", "is", "the", "attendance", "policy?"] && content == "attendance policy"
    ensures Matches(words, content)
  {
    assert IsPrefix(words[3], content);
    LowerKeepsPrefix(words[3], content);
    assert OccursAt(Lower(words[3]), Lower(content), 0);
    ContainsSpec(Lower(words[3]), Lower(content));
    AnyWordInSpec(words, content);
  }

  /** Gathering the outcome of a single read. */
  lemma CollectSingle<T>(r: Read<T>)
    ensures Collect([r]) == if r.Got? then Got([r.value]) else Fails
  {
    assert [r][..0] == [];
    assert Collect<T>([]) == Got([]);
    assert [r][0] == r;
    if r.Got? {
      var none: seq<T> := [];
      assert none + [r.value] == [r.value];
    }
  }

  /** A folder of one readable entry reads as that entry's document. */
  lemma SingleFileFolder(e: Entry, d: Document)
    requires Load(e) == Got(d)
    ensures Collect(Loads([e])) == Got([d])
  {
    assert Loads([e]) == [Got(d)];
    CollectSingle(Got(d));
  }

  /** A folder of one readable, matching entry yields exactly that entry's block. */
  lemma SingleMatchingEntry(question: string, e: Entry, d: Document)
    requires Load(e) == Got(d) && Matches(Split(question), d.content)
    ensures RelevantContext(question, Listed([e])) == Render(d)
  {
    assert Loads([e]) == [Got(d)];
    CollectSingle(Got(d));
    BlocksAppend(Split(question), [], d);
    assert [] + [d] == [d];
  }

  /** A file rules.txt holding "attendance policy" is the whole context of the question
      "What is the attendance policy?", under its header. */
  lemma AttendanceExample(question: string, e: Entry)
    // The literal is passed as a precondition so that the proof reasons about a name, not the literal.
    requires question == "What is the attendance policy?"
    requires e == Entry("rules.txt", Got("attendance policy"), Fails)
    ensures RelevantContext(question, Listed([e])) == HeaderStart + "rules.txt" + HeaderEnd + "attendance policy"
  {
    var d := Document(e.name, e.asText.value);
    RulesIsText();
    QuestionWords();
    RulesMatch(Split(question), d.content);
    SingleMatchingEntry(question, e, d);
  }

  /** Text made only of characters below the Arabic block is not Arabic. */
  lemma BeforeArabicBlock(text: string)
    requires forall k :: 0 <= k < |text| ==> text[k] < '\U{600}'
    ensures !IsArabic(text)
  {
  }

  /** Without a role and a context, a question without Arabic gets the general framing and the
      English directive, and nothing after the base sentence. */
  lemma GeneralEnglishPrompt(q: string)
    requires !IsArabic(q)
    ensures BuildSystemPrompt(DefaultRole, "", q) == GeneralPreamble + BaseLead + EnglishWord + "."
  {
    assert DefaultRole[0] == 'V';
    assert RolePreamble(DefaultRole) == GeneralPreamble;
    assert BasePrompt("", q) == BaseSentence(q) + "";
  }

  /** The enrollment question is written below the Arabic block. */
  lemma EnrollmentIsLatin(q: string)
    // The literal is passed as a precondition so that the proof reasons about a name, not the literal.
    requires q == "What is the enrollment deadline?"
    ensures forall k :: 0 <= k < |q| ==> q[k] < '\U{600}'
  {
  }

  /** "سياسة الحضور" (attendance policy) is Arabic letters and a space. */
  lemma RulesAreArabic(content: string)
    // The literal is passed as a precondition so that the proof reasons about a name, not the literal.
    requires content == "سياسة الحضور"
    ensures ArabicOrSpace(content)
  {
    assert forall k :: 0 <= k < |content| ==> content[k] == ' ' || '\U{600}' <= content[k] <= '\U{6FF}';
  }

  /** The enrollment question finds nothing in a folder whose only file is written in Arabic. */
  lemma EnrollmentFindsNothing(q: string, e: Entry)
    requires forall k :: 0 <= k < |q| ==> q[k] < '\U{600}'
    requires e.name == "rules.txt" && e.asText.Got? && ArabicOrSpace(e.asText.value)
    ensures RelevantContext(q, Listed([e])) == ""
  {
    var d := Document(e.name, e.asText.value);
    RulesIsText();
    assert Load(e) == Got(d);
    SingleFileFolder(e, d);
    LatinQuestionMissesArabicFiles(q, [e]);
  }

  /** An English question, no role, and a folder whose only file is written in Arabic: the request
      is accepted with the default role, the context is empty, and the prompt is the general
      framing with the English directive and no context clause. */
  lemma EnrollmentExample(q: string, e: Entry)
    // The literals are passed as preconditions so that the proof reasons about names, not the literals.
    requires q == "What is the enrollment deadline?"
    requires e == Entry("rules.txt", Got("سياسة الحضور"), Fails)
    ensures Validate(Fields(Some(q), None)) == Accepted(q, DefaultRole)
    ensures RelevantContext(q, Listed([e])) == ""
    ensures BuildSystemPrompt(DefaultRole, RelevantContext(q, Listed([e])), q)
      == GeneralPreamble + BaseLead + EnglishWord + "."
  {
    EnrollmentIsLatin(q);
    RulesAreArabic(e.asText.value);
    EnrollmentFindsNothing(q, e);
    BeforeArabicBlock(q);
    GeneralEnglishPrompt(q);
  }
}
