/** `build_system_prompt`: the instruction text sent ahead of the question. */
module Prompt {
  import opened Text
  import opened Language

  const SchoolName: string := "مدرسة الأمير زيد بن الحسين المهنية"
  const ArabicWord: string := "بالعربية"
  const EnglishWord: string := "باللغة الإنجليزية"
  /** The base sentence up to the language word. */
  const BaseLead: string := "أنت مساعد ذكي لـ " + SchoolName + ". الإجابة يجب أن تكون "
  /** The retrieval note that precedes a non-empty context: answer only from it, or say you do not know. */
  const RagNote: string :=
    "\nملاحظة: اعتمد في إجابتك على السياق المرفق فقط. إذا لم تجد الإجابة في السياق، أجب بأنك لا تعلم.\n\nالسياق:\n"
  const TeacherPreamble: string :=
    "أنت مساعد متخصص للمعلمين في " + SchoolName + ". أجب على الأسئلة الإدارية والتعليمية للمدرسة. "
  const StudentPreamble: string :=
    "أنت مرشد أكاديمي للطلاب في " + SchoolName + ". كن ودوداً وموضحاً. "
  /** The general-visitor framing of the source, written as two literals only to keep the
      verifier's reasoning about this long constant cheap; the concatenation is the source's text. */
  const GeneralPreamble: string :=
    "أنت مساعد عام " + "للزوار وأولياء الأمور. أجب بأدب ووضوح عن أسئلة القبول والتسجيل والأخبار العامة للمدرسة. "

  /** The required answer language, named in Arabic. */
  function LanguageWord(question: string): string {
    if IsArabic(question) then ArabicWord else EnglishWord
  }

  /** The base sentence: the assistant of the school, answering in the question's language. */
  function BaseSentence(question: string): string {
    BaseLead + LanguageWord(question) + "."
  }

  function RolePreamble(role: string): string {
    if role == "Teacher" then TeacherPreamble
    else if role == "Student" then StudentPreamble
    else GeneralPreamble
  }

  /** `base_prompt`: the base sentence, followed by the retrieval note and the context when the
      context is non-empty. */
  function BasePrompt(context: string, question: string): string {
    BaseSentence(question) + (if context != "" then RagNote + context else "")
  }

  /** `build_system_prompt(user_role, context, question)`. */
  function BuildSystemPrompt(role: string, context: string, question: string): string {
    RolePreamble(role) + BasePrompt(context, question)
  }

  /** The characters at which the three framings first differ. */
  lemma PreamblesDiffer()
    ensures |TeacherPreamble| > 10 && |StudentPreamble| > 10 && |GeneralPreamble| > 10
    ensures TeacherPreamble[5] == GeneralPreamble[5] != StudentPreamble[5]
    ensures TeacherPreamble[10] != GeneralPreamble[10]
  {
    assert TeacherPreamble[5] == 'س' && TeacherPreamble[10] == 'م';
    assert StudentPreamble[5] == 'ر';
    assert GeneralPreamble[5] == 'س' && GeneralPreamble[10] == 'ع';
  }

  /** The prompt opens with the teacher framing exactly for "Teacher", with the student framing exactly
      for "Student", and with the general-visitor framing for every other role. */
  lemma RoleSelectsPreamble(role: string, context: string, question: string)
    ensures IsPrefix(TeacherPreamble, BuildSystemPrompt(role, context, question)) <==> role == "Teacher"
    ensures IsPrefix(StudentPreamble, BuildSystemPrompt(role, context, question)) <==> role == "Student"
    ensures IsPrefix(GeneralPreamble, BuildSystemPrompt(role, context, question))
      <==> role != "Teacher" && role != "Student"
  {
    var prompt := BuildSystemPrompt(role, context, question);
    PrefixOfConcat(RolePreamble(role), BasePrompt(context, question));
    PreamblesDiffer();
    if role == "Teacher" {
      PrefixesDisagree(TeacherPreamble, StudentPreamble, prompt, 5);
      PrefixesDisagree(TeacherPreamble, GeneralPreamble, prompt, 10);
    } else if role == "Student" {
      PrefixesDisagree(StudentPreamble, TeacherPreamble, prompt, 5);
      PrefixesDisagree(StudentPreamble, GeneralPreamble, prompt, 5);
    } else {
      PrefixesDisagree(GeneralPreamble, TeacherPreamble, prompt, 10);
      PrefixesDisagree(GeneralPreamble, StudentPreamble, prompt, 5);
    }
  }

  /** What follows the role framing is the same for every role: the role never changes
      the language directive or the context clause. */
  lemma BodyIndependentOfRole(role1: string, role2: string, context: string, question: string)
    ensures var p1 := BuildSystemPrompt(role1, context, question);
            var p2 := BuildSystemPrompt(role2, context, question);
            |RolePreamble(role1)| <= |p1| && |RolePreamble(role2)| <= |p2|
            && p1[|RolePreamble(role1)|..] == p2[|RolePreamble(role2)|..]
  {
    var body := BasePrompt(context, question);
    assert (RolePreamble(role1) + body)[|RolePreamble(role1)|..] == body;
    assert (RolePreamble(role2) + body)[|RolePreamble(role2)|..] == body;
  }

  /** After the role framing, the prompt directs an answer in Arabic exactly when the question has a
      character of the Arabic block, and in English otherwise. */
  lemma LanguageFollowsQuestion(role: string, context: string, question: string)
    ensures IsPrefix(RolePreamble(role) + BaseLead + ArabicWord, BuildSystemPrompt(role, context, question))
      <==> IsArabic(question)
    ensures IsPrefix(RolePreamble(role) + BaseLead + EnglishWord, BuildSystemPrompt(role, context, question))
      <==> !IsArabic(question)
  {
    var prompt := BuildSystemPrompt(role, context, question);
    var lead := RolePreamble(role) + BaseLead;
    var word := LanguageWord(question);
    var rag := if context != "" then RagNote + context else "";
    var tail := "." + rag;
    Regroup(RolePreamble(role), BaseLead, word, ".", rag);
    PrefixOfConcat(lead + word, tail);
    var n := |lead| + 3;
    WordsDiffer(lead);
    if IsArabic(question) {
      PrefixesDisagree(lead + ArabicWord, lead + EnglishWord, prompt, n);
    } else {
      PrefixesDisagree(lead + EnglishWord, lead + ArabicWord, prompt, n);
    }
  }

  /** The two language words first differ at their fourth character, whatever precedes them. */
  lemma WordsDiffer(lead: string)
    ensures |lead + ArabicWord| > |lead| + 3 && |lead + EnglishWord| > |lead| + 3
    ensures (lead + ArabicWord)[|lead| + 3] != (lead + EnglishWord)[|lead| + 3]
  {
    assert ArabicWord[3] == 'ع' && EnglishWord[3] == 'ل';
    assert (lead + ArabicWord)[|lead| + 3] == ArabicWord[3];
    assert (lead + EnglishWord)[|lead| + 3] == EnglishWord[3];
  }

  /** The retrieval note and the context end the prompt exactly when the context is non-empty; with an
      empty context, what follows the role framing is exactly the base sentence. */
  lemma ContextClauseIffContext(role: string, context: string, question: string)
    ensures IsSuffix(RagNote + context, BuildSystemPrompt(role, context, question)) <==> context != ""
    ensures var prompt := BuildSystemPrompt(role, context, question);
            |RolePreamble(role)| <= |prompt|
            && (prompt[|RolePreamble(role)|..] == BaseSentence(question) <==> context == "")
  {
    var preamble := RolePreamble(role);
    var sentence := BaseSentence(question);
    var prompt := BuildSystemPrompt(role, context, question);
    if context == "" {
      assert prompt == preamble + sentence;
      assert prompt[|prompt| - 1] == '.';
      assert RagNote[|RagNote| - 1] == '\n';
      assert RagNote + context == RagNote;
      LastCharsDisagree(RagNote, prompt);
      assert prompt[|preamble|..] == sentence;
    } else {
      assert prompt == preamble + sentence + (RagNote + context);
      assert prompt[|preamble|..] == sentence + (RagNote + context);
      assert prompt[|prompt| - |RagNote + context|..] == RagNote + context;
    }
  }
}
