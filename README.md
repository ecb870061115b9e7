# SchoolChatbot-API, modelled in Dafny

SchoolChatbot-API is a small Flask service that answers questions about one vocational school.
A request carries a question and, optionally, the asker's role. The service then:

1. rejects a missing or empty question with status 400;
2. gathers context from the school's `Knowledge` folder. A `.txt`, `.csv` or `.pdf` file whose
   content contains any word of the question (case-insensitively) contributes one block: an Arabic
   header naming the file, then the content. The blocks are joined with a blank line;
3. builds a system prompt from three parts: a role-specific framing (teacher, student, or general
   visitor), a base sentence that names the answer language (Arabic exactly when the question
   contains a character of the Arabic block), and, when there is context, a note telling the model
   to answer only from that context, followed by the context itself;
4. asks a chat-completion service and returns its reply with status 200, or a fixed Arabic
   apology with status 500 when anything fails.

The model covers steps 1 to 3 and the mapping of step 4's outcome, in seven modules:

- `Text` (`text.dfy`): Python's `str.split()` over its whitespace set, `str.join`, ASCII lower-casing
  and substring containment, each with the properties the rest of the model needs.
- `Language` (`language.dfy`): `is_arabic`.
- `Context` (`context.dfy`): `find_relevant_context`, as an imperative method (`FindRelevantContext`).
  It is proved equal to a specification function (`RelevantContext`), and `RelevantContext` is
  characterised by lemmas. The folder is a value of type `Knowledge`: absent, unlistable, or a listing
  of entries in enumeration order. Each `Entry` carries the outcome of reading it as text and as PDF
  pages. The file's extension decides which of the two outcomes is consulted.
- `Prompt` (`prompt.dfy`): `build_system_prompt`, with the exact strings of the source.
- `Handler` (`handler.dfy`): the validation and default-role branch of `ask_chatbot`, and the whole
  request as a method. The completion service is a function parameter.
- `Scenarios` (`scenarios.dfy`): two worked requests, one whose file matches and one whose only file does not.
- `Wrappers` (`wrappers.dfy`) holds `Option`.

Two facts about the code shape the model of `find_relevant_context`:

- The block header is the Arabic `--- محتوى من ملف: <name> ---` (chatbot_api.py:56).
- One file that cannot be read empties the whole context, because a single `try` wraps the whole
  loop (chatbot_api.py:35, 60-63).

## Model

| member | source | states |
|---|---|---|
| Language.IsArabic | chatbot_api.py:23-24 | the text counts as Arabic iff some character lies in U+0600..U+06FF inclusive |
| Text.WordLength | chatbot_api.py:55 | the first word of a string runs up to the first whitespace character or to the end |
| Text.Split | chatbot_api.py:55 | `question.split()`: every word is non-empty and holds no whitespace; there are no words iff the question is empty or all whitespace |
| Text.SplitJoinRoundTrip | chatbot_api.py:55 | splitting space-joined non-empty, whitespace-free words gives those words back |
| Text.IsSpace | chatbot_api.py:55 | definition: the characters on which `str.split()` separates; used by `Split` and its lemmas |
| Text.WordLengthStopsAtSpace | chatbot_api.py:55 | a whitespace character ends the leading word: the word before it is unaffected by what follows |
| Text.SplitAtSpace | chatbot_api.py:55 | the words of `a`, a whitespace character, `b` are the words of `a` followed by the words of `b`, so runs of whitespace anywhere separate words and give no empty pieces |
| Text.SplitOneWord | chatbot_api.py:55 | a non-empty string without whitespace splits into itself alone |
| Text.SplitWordsBelow | chatbot_api.py:55 | the words of a question are made of its characters: a bound on every character of the question bounds every character of every word |
| Text.Join | chatbot_api.py:52-58 | definition of `sep.join(parts)`; characterised by `JoinConcat`, `JoinContainsPart` and `SplitJoinRoundTrip` |
| Text.Contains | chatbot_api.py:55 | definition of `needle in hay`; characterised by `ContainsSpec` |
| Text.JoinConcat | chatbot_api.py:58 | joining two non-empty lists of parts is joining each and putting one separator between them |
| Text.JoinContainsPart | chatbot_api.py:58 | every part occurs as a substring of the joined string |
| Text.JoinStartsWithFirst | chatbot_api.py:58 | a join of a non-empty list starts with its first part |
| Text.Lower | chatbot_api.py:55 | `Lower` keeps the length and lower-cases each character independently |
| Text.LowerKeepsPrefix | chatbot_api.py:55 | lower-casing keeps a prefix a prefix |
| Text.ContainsSpec | chatbot_api.py:55 | `word in content` holds iff the word occurs at some position of the content |
| Context.LastDot | chatbot_api.py:38 | the position of the last '.' of a name, or none when the name has no '.' |
| Context.Extension | chatbot_api.py:38 | `os.path.splitext(name)[1]`: a suffix of the name that starts with its only '.'; non-empty iff some '.' comes after a character that is not '.' |
| Context.Loads | chatbot_api.py:36-52 | one read outcome per listed entry, in listing order: outcome i is the `Load` of entry i |
| Context.Collect | chatbot_api.py:35-63 | the reads of the loop fail iff one of them fails; otherwise they give one document per entry, in order |
| Context.KindOf | chatbot_api.py:38-47 | definition: the lower-cased extension selects plain text (".txt", ".csv"), PDF (".pdf") or neither; used by `Load` and `OtherEntryNeverKept` |
| Context.Load | chatbot_api.py:37-52 | definition of one loop iteration's read; characterised by `ReadEntry`, `ReadFailureGivesNothing` and `OtherEntryNeverKept` |
| Context.AnyWordIn | chatbot_api.py:55 | definition of the `any(...)` test; characterised by `AnyWordInSpec` |
| Context.Matches | chatbot_api.py:55 | definition of line 55's condition; characterised by `KeptIndicesSpec` |
| Context.Render | chatbot_api.py:56 | definition of one block: header, file name, header end, content; used in `BlocksAreKeptDocuments` |
| Context.Blocks | chatbot_api.py:55-56 | definition of the blocks of the matching documents in order; characterised by `BlocksAppend` and `BlocksAreKeptDocuments` |
| Context.AnyWordInSpec | chatbot_api.py:55 | the `any(...)` test holds iff some lower-cased word of the question is a substring of the lower-cased content |
| Context.KeptIndices | chatbot_api.py:36-56 | the kept documents' positions are in range and strictly increasing, so listing order is kept and no document appears twice |
| Context.KeptIndicesSpec | chatbot_api.py:55 | a document is kept iff its content is non-empty and some question word, lower-cased, is a substring of its lower-cased content |
| Context.BlocksAreKeptDocuments | chatbot_api.py:56 | there is one block per kept document, and block j is the header plus content of the j-th kept document |
| Context.BlocksAppend | chatbot_api.py:55-56 | one more document adds its block at the end exactly when it matches |
| Context.RelevantContext | chatbot_api.py:31-63 | an absent or unlistable folder gives ""; a failed read gives ""; otherwise the result is the blocks joined with a blank line |
| Context.ReadEntry | chatbot_api.py:39-52 | the imperative read of one entry that the loop runs: its outcome is exactly `Load`, which specifies it |
| Context.ReadFailureGivesNothing | chatbot_api.py:35-63 | when any listed file fails to read, the whole context is "" |
| Context.ScanStep | chatbot_api.py:36-56 | one more successful read extends the gathered documents and their blocks by that document |
| Context.FindRelevantContext | chatbot_api.py:27-63 | the loop returns exactly `RelevantContext(question, knowledge)` |
| Context.NoWordsNoBlocks | chatbot_api.py:55 | with no question words, no document is rendered |
| Context.BlankQuestionFindsNothing | chatbot_api.py:55-58 | an empty or all-whitespace question gives "" whatever the folder holds |
| Context.ContextIsKeptBlocksJoined | chatbot_api.py:36-58 | when every read succeeds, the context is the blank-line join, in listing order, of header plus content of each kept document |
| Context.BlockOccursInContext | chatbot_api.py:56-58 | every rendered block occurs in the returned context |
| Context.BlocksAsKeptRenderings | chatbot_api.py:55-56 | the blocks are exactly the renderings of the kept documents, listed in order |
| Context.BlocksEmptyIffNoMatch | chatbot_api.py:55-58 | the joined blocks are "" iff no document matches, both directions |
| Context.ContextEmptyIffNoMatch | chatbot_api.py:36-58 | when every read succeeds, the context is "" iff no document matches line 55's test |
| Context.LatinWordsMissArabicText | chatbot_api.py:55 | words that start with a non-space character below U+0600 never occur, lower-cased, in text made only of whitespace and characters of the Arabic block U+0600..U+06FF |
| Context.LatinQuestionMissesArabicFiles | chatbot_api.py:36-58 | a question written entirely below U+0600 gives "" for any readable folder whose files hold only Arabic-block (U+0600..U+06FF) text and whitespace |
| Context.OtherEntryNeverKept | chatbot_api.py:42-55 | a file that is not `.txt`, `.csv` or `.pdf` never contributes a block |
| Prompt.LanguageWord | chatbot_api.py:68 | definition of the language word; characterised by `LanguageFollowsQuestion` |
| Prompt.BaseSentence | chatbot_api.py:70 | definition of the base sentence; characterised by `LanguageFollowsQuestion` and `ContextClauseIffContext` |
| Prompt.BasePrompt | chatbot_api.py:70-74 | definition of `base_prompt`; characterised by `ContextClauseIffContext` and `BodyIndependentOfRole` |
| Prompt.RolePreamble | chatbot_api.py:76-81 | definition of the role framing; characterised by `RoleSelectsPreamble` |
| Prompt.BuildSystemPrompt | chatbot_api.py:66-81 | definition of `build_system_prompt`; characterised by `RoleSelectsPreamble`, `BodyIndependentOfRole`, `LanguageFollowsQuestion` and `ContextClauseIffContext` |
| Prompt.PreamblesDiffer | chatbot_api.py:76-81 | the three role framings differ at fixed positions |
| Prompt.RoleSelectsPreamble | chatbot_api.py:76-81 | the prompt opens with the teacher framing iff the role is "Teacher", with the student framing iff it is "Student", and with the general framing iff it is neither |
| Prompt.BodyIndependentOfRole | chatbot_api.py:68-81 | after the role framing, the prompt is the same for every role |
| Prompt.LanguageFollowsQuestion | chatbot_api.py:68-70 | the base sentence names Arabic iff the question is Arabic, and English iff it is not |
| Prompt.WordsDiffer | chatbot_api.py:68 | the two language words differ at their fourth character |
| Prompt.ContextClauseIffContext | chatbot_api.py:70-74 | the prompt ends with the retrieval note plus the context iff the context is non-empty; otherwise everything after the framing is exactly the base sentence |
| Handler.Validate | chatbot_api.py:87-93 | a malformed body fails; a missing, null or empty question gives 400 "Question is required."; otherwise the question is accepted with the given role or "Visitor/Parent" |
| Handler.Respond | chatbot_api.py:111-116 | definition: a reply gives 200 with its text, a failed completion 500 with the fixed apology; used in `AskChatbot` |
| Handler.AskChatbot | chatbot_api.py:85-116 | a malformed body gives 500 with the apology; an empty question gives 400; otherwise the reply to the built prompt and the question is mapped to 200 or 500; no other status occurs |
| Handler.MissingRoleIsGeneral | chatbot_api.py:80-93 | a request without a role is accepted as "Visitor/Parent" and gets the general framing |
| Scenarios.NoCapitals | chatbot_api.py:38 | lower-casing leaves a string without capitals unchanged |
| Scenarios.RulesIsText | chatbot_api.py:38-44 | `rules.txt` is read as plain text |
| Scenarios.QuestionWords | chatbot_api.py:55 | "What is the attendance policy?" splits into its five words |
| Scenarios.RulesMatch | chatbot_api.py:55 | the content "attendance policy" matches that question |
| Scenarios.CollectSingle | chatbot_api.py:36-52 | a one-file folder reads as that file's outcome |
| Scenarios.SingleMatchingEntry | chatbot_api.py:36-58 | a folder of one readable, matching file gives exactly that file's block |
| Scenarios.AttendanceExample | chatbot_api.py:27-58 | `rules.txt` holding "attendance policy" is rendered, under its header, as the whole context of the attendance question |
| Scenarios.BeforeArabicBlock | chatbot_api.py:23-24 | text with every character below U+0600 is not Arabic |
| Scenarios.EnrollmentIsLatin | chatbot_api.py:23-24 | every character of "What is the enrollment deadline?" lies below U+0600 |
| Scenarios.RulesAreArabic | chatbot_api.py:55 | "سياسة الحضور" (attendance policy) holds only Arabic letters and a space |
| Scenarios.SingleFileFolder | chatbot_api.py:36-52 | a folder of one readable file reads as that file's document |
| Scenarios.EnrollmentFindsNothing | chatbot_api.py:36-58 | a question below U+0600 finds nothing in a folder whose only file, `rules.txt`, holds Arabic text |
| Scenarios.GeneralEnglishPrompt | chatbot_api.py:68-81 | without context and with the default role, a non-Arabic question gets the general framing, the base sentence with the English word, and nothing else |
| Scenarios.EnrollmentExample | chatbot_api.py:85-99 | the enrollment question without a role is accepted as "Visitor/Parent"; a folder whose only file `rules.txt` holds "سياسة الحضور" gives no context, so no file matched; the prompt built from that context is the general framing plus the English base sentence |

## Left out

- HTTP and JSON: Flask set-up, routing, `request.get_json` and `jsonify` are not modelled. A body
  is either `Malformed` or a pair of optional string fields. A `get_json` failure or a body that
  is not an object becomes `Malformed`, which leads to the 500 apology.
- Handler.Validate: a question or role that is a JSON value other than a string is not modelled.
  A JSON `null` question is the same as a missing one: both give 400. A JSON `null` role is also
  the same as a missing one. In the source, `null` passes `None` to `build_system_prompt`, which
  picks the general framing just as the default role does.
- The completion call (client set-up, model name, temperature and reply extraction) is one
  function parameter. It returns either a reply text or a failure. A reply whose content is
  `None` is not distinguished from a text.
- Handler.AskChatbot: "no retrieval and no completion on a 400" is not stated as a trace property.
  It follows from the 400 branch returning before either is used, and from `Validate` depending
  only on the body.
- `logging` has no effect on results. `load_dotenv` and `os.getenv` supply the completion key, and
  `os.getcwd()` decides which folder is read. All three are folded into the model's inputs: the
  `Knowledge` value and the `complete` parameter.
- File I/O: `os.path.exists`, `os.listdir`, `open`/`read` with UTF-8 decoding and `pypdf`'s page
  extraction are inputs. The listing order is taken as given. Each file's text read, and each
  PDF's list of page texts, is given as success or failure. Only the joining of pages with "\n"
  is modelled.
- Context.Extension: follows `os.path.splitext` for bare file names. A '/' or an alternative
  separator inside a name does not occur in a directory listing and is not modelled.
- Text.Lower: folds only ASCII 'A'..'Z' and keeps the length. Python's `str.lower()` also folds
  other scripts, maps some non-ASCII characters to ASCII ones (U+212A KELVIN SIGN becomes 'k'), and can
  change the length ('İ' becomes two code points); the model does not reproduce this. The Arabic
  block has no case, so the lemmas about Arabic-block text hold under either lower-casing.
- Concurrency of the Flask server is not modelled.
