/**
 The chat box: a canned-response assistant that lowercases the question and
 answers with the value of the first entry of an ordered keyword table whose
 keyword occurs anywhere in it, and a transcript to which every non-blank
 question and its answer are appended.
 */
module Chat {

  // ---------------------------------------------------------------- letters

  predicate IsUpper(c: char) {
    'A' <= c <= 'Z'
  }

  predicate IsLower(c: char) {
    'a' <= c <= 'z'
  }

  /** ASCII lower-casing of one character. */
  function LowerChar(c: char): (r: char)
    ensures !IsUpper(r)
    ensures IsUpper(c) ==> IsLower(r) && r as int == c as int + 32
    ensures !IsUpper(c) ==> r == c
  {
    if IsUpper(c) then (c as int + 32) as char else c
  }

  /** ASCII upper-casing of one character. */
  function UpperChar(c: char): (r: char)
    ensures !IsLower(r)
    ensures IsLower(c) ==> IsUpper(r) && r as int == c as int - 32
    ensures !IsLower(c) ==> r == c
  {
    if IsLower(c) then (c as int - 32) as char else c
  }

  /** `toLowerCase`, on the ASCII letters. */
  function ToLower(s: string): (r: string)
    ensures |r| == |s|
  {
    if s == [] then [] else [LowerChar(s[0])] + ToLower(s[1..])
  }

  function ToUpper(s: string): (r: string)
    ensures |r| == |s|
  {
    if s == [] then [] else [UpperChar(s[0])] + ToUpper(s[1..])
  }

  /** Lower-casing works character by character and leaves no capital. */
  lemma {:induction false} ToLowerPointwise(s: string)
    ensures forall i :: 0 <= i < |s| ==> ToLower(s)[i] == LowerChar(s[i])
    ensures forall i :: 0 <= i < |s| ==> !IsUpper(ToLower(s)[i])
  {
    if s != [] {
      ToLowerPointwise(s[1..]);
    }
  }

  /** Lower-casing an already lower-cased text changes nothing. */
  lemma {:induction false} ToLowerIdempotent(s: string)
    ensures ToLower(ToLower(s)) == ToLower(s)
  {
    if s != [] {
      ToLowerIdempotent(s[1..]);
    }
  }

  /** A text's upper-cased form lowers to the same text as the text itself. */
  lemma {:induction false} ToLowerOfToUpper(s: string)
    ensures ToLower(ToUpper(s)) == ToLower(s)
  {
    if s != [] {
      ToLowerOfToUpper(s[1..]);
    }
  }

  /** A text without capitals is its own lower-case form. */
  lemma {:induction false} ToLowerOfLower(s: string)
    requires forall c :: c in s ==> !IsUpper(c)
    ensures ToLower(s) == s
  {
    if s != [] {
      assert forall c :: c in s[1..] ==> c in s;
      ToLowerOfLower(s[1..]);
    }
  }

  // ------------------------------------------------------------- substrings

  predicate StartsWith(text: string, key: string) {
    |key| <= |text| && text[..|key|] == key
  }

  /** `text.includes(key)`. */
  predicate Contains(text: string, key: string)
    decreases |text|
  {
    StartsWith(text, key) || (|text| > 0 && Contains(text[1..], key))
  }

  /** `key` occurs in `text` starting at position `i`. */
  predicate OccursAt(text: string, key: string, i: int) {
    0 <= i <= |text| - |key| && text[i..i + |key|] == key
  }

  /** `key` occurs in `text` exactly when it equals the slice of `text` at some position. */
  lemma {:induction false} ContainsIffOccurs(text: string, key: string)
    ensures Contains(text, key) <==> exists i :: OccursAt(text, key, i)
  {
    if |key| <= |text| {
      assert text[..|key|] == text[0..0 + |key|];
    }
    assert StartsWith(text, key) <==> OccursAt(text, key, 0);
    if |text| > 0 {
      ContainsIffOccurs(text[1..], key);
      forall i | OccursAt(text[1..], key, i)
        ensures OccursAt(text, key, i + 1)
      {
        assert text[1..][i..i + |key|] == text[i + 1..i + 1 + |key|];
      }
      forall i | OccursAt(text, key, i) && i > 0
        ensures OccursAt(text[1..], key, i - 1)
      {
        assert text[1..][i - 1..i - 1 + |key|] == text[i..i + |key|];
      }
    } else {
      forall i | OccursAt(text, key, i)
        ensures i == 0
      {
      }
    }
  }

  /** A key occurs in any text built around it. */
  lemma {:induction false} ContainsInfix(before: string, key: string, after: string)
    ensures Contains(before + key + after, key)
    decreases |before|
  {
    if |before| == 0 {
      assert before + key + after == key + after;
      assert (key + after)[..|key|] == key;
    } else {
      assert (before + key + after)[1..] == before[1..] + key + after;
      ContainsInfix(before[1..], key, after);
    }
  }

  /** A key holding a character the text lacks does not occur in it. */
  lemma {:induction false} MissingCharacter(text: string, key: string, c: char)
    requires c in key && c !in text
    ensures !Contains(text, key)
    decreases |text|
  {
    if |key| <= |text| {
      assert forall x :: x in text[..|key|] ==> x in text;
    }
    if |text| > 0 {
      assert forall x :: x in text[1..] ==> x in text;
      MissingCharacter(text[1..], key, c);
    }
  }

  // ------------------------------------------------------------ the responder

  /** Keyword/answer pairs in insertion order, which is the order
      `Object.entries` walks them. */
  type ResponseTable = seq<(string, string)>

  function Answers(table: ResponseTable): set<string> {
    set i | 0 <= i < |table| :: table[i].1
  }

  const DefaultAnswer: string :=
    "I'm not sure I understand. Could you please rephrase your question? You can ask me about academic schedules, facility hours, campus events, dining services, or library resources."

  const Responses: ResponseTable := [
    ("hello", "Hello! How can I assist you today?"),
    ("hi", "Hi there! What can I help you with?"),
    ("library hours", "The library is open Monday-Thursday from 8 AM to 10 PM, Friday from 8 AM to 6 PM, Saturday from 10 AM to 6 PM, and Sunday from 12 PM to 8 PM."),
    ("dining hours", "The main dining hall serves breakfast from 7-10 AM, lunch from 11:30 AM-2 PM, and dinner from 5-8 PM."),
    ("events", "We have a Welcome Back Festival on September 5 and a Career Fair on October 12."),
    ("career fair", "The Career Fair is on October 12, 2023 from 10:00 AM to 3:00 PM at the University Conference Center."),
    ("recreation center", "The Recreation Center is open Monday-Friday from 6 AM to 10 PM, Saturday from 8 AM to 8 PM, and Sunday from 10 AM to 6 PM."),
    ("study room", "Library study rooms can be reserved online or at the front desk for up to 4 hours per session."),
    ("parking", "Student parking is available in lots B, C, and D. A parking permit is required, which can be obtained from Campus Security."),
    ("it department", "The IT department is located in the Technology Building, room 100. They can be reached at it-support@mallareddy.edu or (555) 123-ITHELP."),
    ("scholarship", "Scholarship applications are available through the Financial Aid office. You can find applications on the student portal under \"Financial Aid\"."),
    ("default", DefaultAnswer)
  ]

  /** No keyword is empty, and the fallback is the answer stored under "default". */
  lemma ResponsesShape()
    ensures |Responses| == 12
    ensures forall i :: 0 <= i < |Responses| ==> |Responses[i].0| > 0
    ensures Responses[11] == ("default", DefaultAnswer)
    ensures DefaultAnswer in Answers(Responses)
    ensures Responses[0].0 == "hello" && Responses[1].0 == "hi" && Responses[10].0 == "scholarship"
  {
    assert Responses[11].1 == DefaultAnswer;
  }

  /** The answer of the first entry whose keyword occurs in `text`, or
      `fallback` when none does. */
  function Respond(table: ResponseTable, fallback: string, text: string): (r: string)
    ensures (forall j :: 0 <= j < |table| ==> !Contains(text, table[j].0)) ==> r == fallback
    ensures forall i :: 0 <= i < |table| && Contains(text, table[i].0)
                        && (forall j :: 0 <= j < i ==> !Contains(text, table[j].0))
                        ==> r == table[i].1
    ensures r == fallback || r in Answers(table)
  {
    if table == [] then fallback
    else if Contains(text, table[0].0) then table[0].1
    else
      var r := Respond(table[1..], fallback, text);
      assert forall i :: 1 <= i < |table| ==> table[1..][i - 1] == table[i];
      assert Answers(table[1..]) <= Answers(table) by {
        forall a | a in Answers(table[1..])
          ensures a in Answers(table)
        {
          var k :| 0 <= k < |table[1..]| && table[1..][k].1 == a;
          assert table[k + 1].1 == a;
        }
      }
      r
  }

  /** `processInput`: lowercase the question and take the first matching
      entry's answer, or the "default" answer when nothing matches. */
  function ProcessInput(input: string): string {
    Respond(Responses, Responses[11].1, ToLower(input))
  }

  /** The answer to a question is the answer of the earliest entry whose
      keyword occurs in the lower-cased question, or the "default" answer
      when none does; either way it is one of the table's answers. */
  lemma ProcessInputFirstMatch(input: string)
    ensures ProcessInput(input) in Answers(Responses)
    ensures (forall j :: 0 <= j < |Responses| ==> !Contains(ToLower(input), Responses[j].0))
            ==> ProcessInput(input) == DefaultAnswer
    ensures forall i :: 0 <= i < |Responses| && Contains(ToLower(input), Responses[i].0)
                        && (forall j :: 0 <= j < i ==> !Contains(ToLower(input), Responses[j].0))
                        ==> ProcessInput(input) == Responses[i].1
  {
    ResponsesShape();
  }

  /** Questions that differ only in the case of their letters get the same answer. */
  lemma CaseInsensitive(input: string)
    ensures ProcessInput(ToLower(input)) == ProcessInput(input)
    ensures ProcessInput(ToUpper(input)) == ProcessInput(input)
  {
    ToLowerIdempotent(input);
    ToLowerOfToUpper(input);
  }

  /** No keyword is empty, so an empty question gets the fallback. */
  lemma {:induction false} EmptyTextFallsBack(table: ResponseTable, fallback: string)
    requires forall i :: 0 <= i < |table| ==> |table[i].0| > 0
    ensures Respond(table, fallback, "") == fallback
  {
    forall j | 0 <= j < |table|
      ensures !Contains("", table[j].0)
    {
      assert table[j].0[0] in table[j].0;
      MissingCharacter("", table[j].0, table[j].0[0]);
    }
  }

  lemma EmptyInputGetsDefault()
    ensures ProcessInput("") == DefaultAnswer
  {
    assert ToLower("") == "";
    ResponsesShape();
    EmptyTextFallsBack(Responses, DefaultAnswer);
  }

  /** The first match wins, not the longest: the keyword "library" listed
      after "library hours" is never reached by a question about library hours. */
  lemma FirstMatchWins()
    ensures Respond([("library hours", "A"), ("library", "B"), ("default", "D")], "D",
                    "what are the library hours") == "A"
  {
    ContainsInfix("what are the ", "library hours", "");
    assert "what are the " + "library hours" + "" == "what are the library hours";
  }

  lemma LowerScholarshipQuestionTail()
    ensures ToLower("ow to apply for scholarships?") == "ow to apply for scholarships?"
  {
    assert forall c :: c in "ow to apply for scholarships?" ==> !IsUpper(c);
    ToLowerOfLower("ow to apply for scholarships?");
  }

  lemma LowerScholarshipQuestion()
    ensures ToLower("How to apply for scholarships?") == "how to apply for scholarships?"
  {
    var t := "How to apply for scholarships?";
    var rest := "ow to apply for scholarships?";
    LowerScholarshipQuestionTail();
    assert t[1..] == rest;
    assert ToLower(t) == [LowerChar(t[0])] + ToLower(t[1..]);
    var l := "how to apply for scholarships?";
    assert l[1..] == rest;
    HeadTail(l);
  }

  lemma HeadTail(s: string)
    requires |s| > 0
    ensures s == [s[0]] + s[1..]
  {
  }

  lemma ScholarshipQuestionLacksHello()
    ensures !Contains("how to apply for scholarships?", "hello")
  {
    MissingCharacter("how to apply for scholarships?", "hello", 'e');
  }

  lemma ScholarshipQuestionHasHi()
    ensures Contains("how to apply for scholarships?", "hi")
  {
    ContainsInfix("how to apply for scholars", "hi", "ps?");
    assert "how to apply for scholars" + "hi" + "ps?" == "how to apply for scholarships?";
  }

  lemma ScholarshipQuestionHasScholarship()
    ensures Contains("how to apply for scholarships?", "scholarship")
  {
    ContainsInfix("how to apply for ", "scholarship", "s?");
    assert "how to apply for " + "scholarship" + "s?" == "how to apply for scholarships?";
  }

  /** The sample question about scholarships gets the greeting answer: the
      keyword "hi" inside "scholarships" comes before "scholarship" in the table. */
  lemma ScholarshipQuestionGetsGreeting()
    ensures Contains(ToLower("How to apply for scholarships?"), "scholarship")
    ensures ProcessInput("How to apply for scholarships?") == Responses[1].1
  {
    LowerScholarshipQuestion();
    ScholarshipQuestionLacksHello();
    ScholarshipQuestionHasHi();
    ScholarshipQuestionHasScholarship();
    GreetingAnswer("How to apply for scholarships?");
  }

  /** A question holding "hi" but not "hello" gets the greeting answer. */
  lemma GreetingAnswer(input: string)
    requires !Contains(ToLower(input), "hello") && Contains(ToLower(input), "hi")
    ensures ProcessInput(input) == Responses[1].1
  {
    ResponsesShape();
    ProcessInputFirstMatch(input);
    assert forall j :: 0 <= j < 1 ==> !Contains(ToLower(input), Responses[j].0);
  }

  // --------------------------------------------- greetings consulted last

  /** Whether some keyword of `table` occurs in `text`. */
  predicate HasKey(table: ResponseTable, text: string) {
    exists j :: 0 <= j < |table| && Contains(text, table[j].0)
  }

  /** Looking up in two tables one after the other: the first table answers
      when one of its keywords occurs, and the second one otherwise. */
  lemma {:induction false} RespondAppend(x: ResponseTable, y: ResponseTable, fallback: string, text: string)
    ensures Respond(x + y, fallback, text) == if HasKey(x, text) then Respond(x, fallback, text)
                                              else Respond(y, fallback, text)
  {
    if x != [] {
      assert (x + y)[0] == x[0] && (x + y)[1..] == x[1..] + y;
      RespondAppend(x[1..], y, fallback, text);
      if !Contains(text, x[0].0) {
        assert HasKey(x, text) <==> HasKey(x[1..], text) by {
          if HasKey(x, text) {
            var j :| 0 <= j < |x| && Contains(text, x[j].0);
            assert x[1..][j - 1] == x[j];
          }
          if HasKey(x[1..], text) {
            var j :| 0 <= j < |x[1..]| && Contains(text, x[1..][j].0);
            assert x[j + 1] == x[1..][j];
          }
        }
      } else {
        assert HasKey(x, text) by { assert Contains(text, x[0].0); }
      }
    } else {
      assert x + y == y;
    }
  }

  /** Swapping two blocks of a table changes no answer as long as at most
      one of the blocks has a keyword in the text. */
  lemma SwapAgrees(g: ResponseTable, t: ResponseTable, d: ResponseTable, fallback: string, text: string)
    requires !HasKey(g, text) || !HasKey(t, text)
    ensures Respond(g + (t + d), fallback, text) == Respond(t + (g + d), fallback, text)
  {
    RespondAppend(g, t + d, fallback, text);
    RespondAppend(t, g + d, fallback, text);
    RespondAppend(t, d, fallback, text);
    RespondAppend(g, d, fallback, text);
  }

  /** The two greeting entries, the nine topic entries and the "default" entry. */
  const Greetings: ResponseTable := Responses[..2]
  const Topics: ResponseTable := Responses[2..11]
  const Fallback: ResponseTable := Responses[11..]

  /** The table as evidently intended: the same entries with the topics
      consulted before the greetings, so that "hi" inside a longer word no
      longer hides the topic the question is about. */
  const TopicsFirst: ResponseTable := Topics + (Greetings + Fallback)

  lemma ResponsesBlocks()
    ensures Responses == Greetings + (Topics + Fallback)
    ensures |Topics| == 9 && Topics[8] == ("scholarship", Responses[10].1)
  {
    assert Responses == Responses[..2] + (Responses[2..11] + Responses[11..]);
  }

  /** `processInput` over the reordered table. */
  function ProcessInputTopicsFirst(input: string): string {
    Respond(TopicsFirst, DefaultAnswer, ToLower(input))
  }

  /** The reordered responder gives the answer of the original whenever the
      question does not hold both a greeting and a topic keyword; in
      particular every question with a topic keyword and no greeting, and
      every greeting with no topic keyword, is answered as before. */
  lemma TopicsFirstAgrees(input: string)
    requires !HasKey(Greetings, ToLower(input)) || !HasKey(Topics, ToLower(input))
    ensures ProcessInputTopicsFirst(input) == ProcessInput(input)
  {
    ResponsesShape();
    ResponsesBlocks();
    SwapAgrees(Greetings, Topics, Fallback, DefaultAnswer, ToLower(input));
  }

  lemma TopicKeys()
    ensures Topics[0].0 == "library hours" && Topics[1].0 == "dining hours" && Topics[2].0 == "events"
    ensures Topics[3].0 == "career fair" && Topics[4].0 == "recreation center" && Topics[5].0 == "study room"
    ensures Topics[6].0 == "parking" && Topics[7].0 == "it department"
  {
  }

  /** With topics first, a question that holds "scholarship" and none of
      the topic keywords listed before it gets the scholarship answer,
      whatever greeting it holds. */
  lemma ScholarshipTopicAnswer(text: string)
    requires !Contains(text, "library hours") && !Contains(text, "dining hours") && !Contains(text, "events")
    requires !Contains(text, "career fair") && !Contains(text, "recreation center") && !Contains(text, "study room")
    requires !Contains(text, "parking") && !Contains(text, "it department")
    requires Contains(text, "scholarship")
    ensures Respond(TopicsFirst, DefaultAnswer, text) == Responses[10].1
  {
    TopicKeys();
    ResponsesBlocks();
    assert forall j :: 0 <= j < 8 ==> !Contains(text, Topics[j].0);
    assert HasKey(Topics, text) by { assert Contains(text, Topics[8].0); }
    RespondAppend(Topics, Greetings + Fallback, DefaultAnswer, text);
  }

  // None of the eight topics listed before "scholarship" occurs in the
  // scholarship sample question: each of their keywords holds a letter the
  // question lacks.

  lemma ScholarshipQuestionLacksLibrary()
    ensures !Contains("how to apply for scholarships?", "library hours")
  {
    MissingCharacter("how to apply for scholarships?", "library hours", 'b');
  }

  lemma ScholarshipQuestionLacksDining()
    ensures !Contains("how to apply for scholarships?", "dining hours")
  {
    MissingCharacter("how to apply for scholarships?", "dining hours", 'd');
  }

  lemma ScholarshipQuestionLacksEvents()
    ensures !Contains("how to apply for scholarships?", "events")
  {
    MissingCharacter("how to apply for scholarships?", "events", 'e');
  }

  lemma ScholarshipQuestionLacksCareerFair()
    ensures !Contains("how to apply for scholarships?", "career fair")
  {
    MissingCharacter("how to apply for scholarships?", "career fair", 'e');
  }

  lemma ScholarshipQuestionLacksRecreation()
    ensures !Contains("how to apply for scholarships?", "recreation center")
  {
    MissingCharacter("how to apply for scholarships?", "recreation center", 'e');
  }

  lemma ScholarshipQuestionLacksStudyRoom()
    ensures !Contains("how to apply for scholarships?", "study room")
  {
    MissingCharacter("how to apply for scholarships?", "study room", 'u');
  }

  lemma ScholarshipQuestionLacksParking()
    ensures !Contains("how to apply for scholarships?", "parking")
  {
    MissingCharacter("how to apply for scholarships?", "parking", 'k');
  }

  lemma ScholarshipQuestionLacksItDepartment()
    ensures !Contains("how to apply for scholarships?", "it department")
  {
    MissingCharacter("how to apply for scholarships?", "it department", 'd');
  }

  /** With topics first, the scholarship sample question gets the
      scholarship answer. */
  lemma ScholarshipQuestionGetsScholarshipAnswer()
    ensures ProcessInputTopicsFirst("How to apply for scholarships?") == Responses[10].1
  {
    LowerScholarshipQuestion();
    ScholarshipQuestionHasScholarship();
    ScholarshipQuestionLacksLibrary();
    ScholarshipQuestionLacksDining();
    ScholarshipQuestionLacksEvents();
    ScholarshipQuestionLacksCareerFair();
    ScholarshipQuestionLacksRecreation();
    ScholarshipQuestionLacksStudyRoom();
    ScholarshipQuestionLacksParking();
    ScholarshipQuestionLacksItDepartment();
    ScholarshipTopicAnswer("how to apply for scholarships?");
  }

  // ------------------------------------------------------------ the transcript

  datatype Message = Message(text: string, isUser: bool)

  const Welcome: string := "Hi there! I'm CampusAI, your virtual assistant. How can I help you today?"
  const Hint: string := "You can ask me about academic schedules, facility hours, campus events, dining services, or library resources."

  /** The characters `trim` removes: ECMAScript white space and line terminators. */
  predicate IsWhitespace(c: char) {
    c == '\t' || c == '\n' || c == '\U{B}' || c == '\U{C}' || c == '\r' || c == ' '
    || c == '\U{A0}' || c == '\U{1680}' || ('\U{2000}' <= c <= '\U{200A}')
    || c == '\U{2028}' || c == '\U{2029}' || c == '\U{202F}' || c == '\U{205F}'
    || c == '\U{3000}' || c == '\U{FEFF}'
  }

  function TrimStart(s: string): (r: string)
    ensures |r| <= |s|
  {
    if s != [] && IsWhitespace(s[0]) then TrimStart(s[1..]) else s
  }

  function TrimEnd(s: string): (r: string)
    ensures |r| <= |s|
  {
    if s != [] && IsWhitespace(s[|s| - 1]) then TrimEnd(s[..|s| - 1]) else s
  }

  /** `trim`. */
  function Trim(s: string): string {
    TrimEnd(TrimStart(s))
  }

  predicate IsBlank(s: string) {
    forall i :: 0 <= i < |s| ==> IsWhitespace(s[i])
  }

  /** `input.trim()` is empty exactly when every character is white space. */
  lemma TrimEmptyIffBlank(s: string)
    ensures Trim(s) == "" <==> IsBlank(s)
  {
    TrimStartEmpty(s);
    TrimEndEmpty(TrimStart(s));
  }

  lemma {:induction false} TrimStartEmpty(s: string)
    ensures TrimStart(s) == "" <==> IsBlank(s)
    ensures TrimStart(s) != "" ==> !IsWhitespace(TrimStart(s)[0])
  {
    if s != [] && IsWhitespace(s[0]) {
      TrimStartEmpty(s[1..]);
      BlankTail(s);
    }
  }

  lemma {:induction false} TrimEndEmpty(s: string)
    ensures TrimEnd(s) == "" <==> IsBlank(s)
  {
    if s != [] && IsWhitespace(s[|s| - 1]) {
      TrimEndEmpty(s[..|s| - 1]);
      assert IsBlank(s) <==> IsBlank(s[..|s| - 1]) by {
        if IsBlank(s[..|s| - 1]) {
          forall i | 0 <= i < |s|
            ensures IsWhitespace(s[i])
          {
            if i < |s| - 1 {
              assert s[i] == s[..|s| - 1][i];
            }
          }
        }
      }
    }
  }

  lemma BlankTail(s: string)
    requires s != [] && IsWhitespace(s[0])
    ensures IsBlank(s) <==> IsBlank(s[1..])
  {
    if IsBlank(s[1..]) {
      forall i | 0 <= i < |s|
        ensures IsWhitespace(s[i])
      {
        if i > 0 {
          assert s[i] == s[1..][i - 1];
        }
      }
    }
  }

  datatype ChatState = ChatState(messages: seq<Message>, input: string)

  /** The chat opens with the assistant's greeting and hint and an empty input box. */
  function InitialChat(): (s: ChatState)
    ensures |s.messages| == 2 && !s.messages[0].isUser && !s.messages[1].isUser
    ensures s.input == ""
  {
    ChatState([Message(Welcome, false), Message(Hint, false)], "")
  }

  /** Typing into the input box. */
  function SetInput(s: ChatState, value: string): (r: ChatState)
    ensures r.messages == s.messages && r.input == value
  {
    s.(input := value)
  }

  /** `handleSend`, with the typing delay collapsed, for a responder
      `reply`: a blank input changes nothing; otherwise the question as typed
      and then its answer are appended and the input box is cleared. */
  function Send(s: ChatState, reply: string -> string): (r: ChatState)
    ensures IsBlank(s.input) ==> r == s
    ensures !IsBlank(s.input) ==>
              && |r.messages| == |s.messages| + 2
              && r.messages[..|s.messages|] == s.messages
              && r.messages[|s.messages|] == Message(s.input, true)
              && r.messages[|s.messages| + 1] == Message(reply(s.input), false)
              && r.input == ""
  {
    TrimEmptyIffBlank(s.input);
    if Trim(s.input) == "" then s
    else
      var userMessage := Message(s.input, true);
      var botMessage := Message(reply(userMessage.text), false);
      ChatState(s.messages + [userMessage] + [botMessage], "")
  }

  /** `handleSend` with the campus responder. */
  function HandleSend(s: ChatState): ChatState {
    Send(s, ProcessInput)
  }

  /** The shape every reachable transcript has: the two opening assistant
      messages, then pairs of a non-blank question and `reply`'s answer to it. */
  predicate Alternates(t: seq<Message>, reply: string -> string) {
    && |t| >= 2 && |t| % 2 == 0
    && t[0] == Message(Welcome, false) && t[1] == Message(Hint, false)
    && forall k :: 2 <= k < |t| ==> InPlace(t, k, reply)
  }

  /** Even positions from 2 on hold non-blank questions, odd ones the answer
      to the question before them. */
  predicate InPlace(t: seq<Message>, k: int, reply: string -> string)
    requires 2 <= k < |t|
  {
    if k % 2 == 0 then t[k].isUser && !IsBlank(t[k].text)
    else t[k] == Message(reply(t[k - 1].text), false)
  }

  predicate WellFormed(t: seq<Message>) {
    Alternates(t, ProcessInput)
  }

  lemma InitialWellFormed()
    ensures WellFormed(InitialChat().messages)
  {
  }

  /** Sending, with any responder, keeps the transcript alternating. */
  lemma SendKeepsAlternation(s: ChatState, reply: string -> string)
    requires Alternates(s.messages, reply)
    ensures Alternates(Send(s, reply).messages, reply)
  {
    var t := s.messages;
    var r := Send(s, reply).messages;
    if !IsBlank(s.input) {
      forall k | 2 <= k < |r|
        ensures InPlace(r, k, reply)
      {
        if k < |t| {
          assert r[k] == t[k] && r[k - 1] == t[k - 1];
          assert InPlace(t, k, reply);
        } else if k == |t| {
          assert r[k] == Message(s.input, true);
        } else {
          assert r[k - 1] == Message(s.input, true);
        }
      }
      assert r[0] == t[0] && r[1] == t[1];
    }
  }

  /** Sending keeps the campus transcript well formed. */
  lemma SendPreservesWellFormed(s: ChatState)
    requires WellFormed(s.messages)
    ensures WellFormed(HandleSend(s).messages)
  {
    SendKeepsAlternation(s, ProcessInput);
  }

  /** In an alternating transcript every question is followed by its answer. */
  lemma AnswerFollows(t: seq<Message>, reply: string -> string, k: int)
    requires Alternates(t, reply) && 2 <= k < |t|
    ensures t[k].isUser ==> k + 1 < |t| && t[k + 1].text == reply(t[k].text)
    ensures !t[k].isUser ==> t[k].text == reply(t[k - 1].text)
  {
    assert InPlace(t, k, reply);
    if k % 2 == 0 {
      assert k + 1 < |t| && InPlace(t, k + 1, reply);
    }
  }

  /** Every assistant message after the opening two is one of the table's
      answers, and every question is followed by its answer. */
  lemma RepliesAreTableAnswers(t: seq<Message>, k: int)
    requires WellFormed(t) && 2 <= k < |t|
    ensures !t[k].isUser ==> t[k].text in Answers(Responses)
    ensures t[k].isUser ==> k + 1 < |t| && t[k + 1].text == ProcessInput(t[k].text)
  {
    AnswerFollows(t, ProcessInput, k);
    if !t[k].isUser {
      ProcessInputFirstMatch(t[k - 1].text);
    }
  }
}
