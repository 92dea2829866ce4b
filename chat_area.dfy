/** The rules the chat area applies when it renders a conversation: who a
    message is from, and, inside a bot message's markdown, how a code
    element is classified (language name, code text, highlighted block or
    inline code). The rendering itself is not modelled. */
module ChatArea {
  import opened JsText

  /** One chat message: `{ sender, text }`. */
  datatype Message = Message(sender: string, text: string)

  /** The sender test: a message is the user's exactly when its sender is
      the string "user"; any other sender is shown as the bot. */
  predicate IsUser(m: Message) {
    m.sender == "user"
  }

  /** What one message turns into: the user's text as plain text, or the
      bot's text handed to the markdown renderer. */
  datatype Bubble = UserBubble(plain: string) | BotBubble(markdown: string)

  function RenderMessage(m: Message): (b: Bubble)
    ensures b.UserBubble? <==> IsUser(m)
    ensures b.UserBubble? ==> b.plain == m.text
    ensures b.BotBubble? ==> b.markdown == m.text
  {
    if IsUser(m) then UserBubble(m.text) else BotBubble(m.text)
  }

  /** The conversation as rendered: one bubble per message, in list order. */
  function RenderMessages(ms: seq<Message>): (bs: seq<Bubble>)
    ensures |bs| == |ms|
    ensures forall i :: 0 <= i < |ms| ==> bs[i] == RenderMessage(ms[i])
  {
    if ms == [] then [] else [RenderMessage(ms[0])] + RenderMessages(ms[1..])
  }

  /** Appending messages to a conversation appends their bubbles after the
      ones already shown. */
  lemma RenderAppend(ms: seq<Message>, more: seq<Message>)
    ensures RenderMessages(ms + more) == RenderMessages(ms) + RenderMessages(more)
  {
  }

  /** Only the exact lower-case sender "user" is the user. */
  lemma OtherSendersAreBot()
    ensures RenderMessage(Message("bot", "hi")).BotBubble?
    ensures RenderMessage(Message("User", "hi")).BotBubble?
    ensures RenderMessage(Message("", "hi")).BotBubble?
    ensures RenderMessage(Message("user", "hi")) == UserBubble("hi")
  {
  }

  // ---- the `code` renderer ----

  const LanguagePrefix: string := "language-"

  /** `className || ""`: a missing class name reads as the empty string. */
  function ClassText(className: Option<string>): string {
    match className
    case None => ""
    case Some(c) => c
  }

  /** `/language-(\w+)/` matches at position `p` of `s`: the prefix starts
      there and at least one word character follows it. */
  predicate MatchesAt(s: string, p: nat) {
    p + |LanguagePrefix| < |s| &&
    s[p..p + |LanguagePrefix|] == LanguagePrefix &&
    IsWordChar(s[p + |LanguagePrefix|])
  }

  /** The leftmost position at or after `from` where the expression
      matches, if there is one. */
  function FirstMatch(s: string, from: nat): (r: Option<nat>)
    requires from <= |s|
    ensures r.Some? ==> from <= r.value && MatchesAt(s, r.value)
    ensures r.Some? ==> forall q :: from <= q < r.value ==> !MatchesAt(s, q)
    ensures r.None? ==> forall q :: from <= q ==> !MatchesAt(s, q)
    decreases |s| - from
  {
    if from == |s| then None
    else if MatchesAt(s, from) then Some(from)
    else FirstMatch(s, from + 1)
  }

  /** The longest run of word characters of `s` starting at `k`: the greedy
      `(\w+)` group. */
  function WordRun(s: string, k: nat): (r: string)
    requires k <= |s|
    ensures k + |r| <= |s| && r == s[k..k + |r|]
    ensures forall i :: 0 <= i < |r| ==> IsWordChar(r[i])
    ensures k + |r| == |s| || !IsWordChar(s[k + |r|])
    decreases |s| - k
  {
    if k < |s| && IsWordChar(s[k]) then [s[k]] + WordRun(s, k + 1) else []
  }

  /** `match ? match[1] : ""` for `/language-(\w+)/.exec(className || "")`:
      empty when nothing matches, otherwise a non-empty run of word
      characters. */
  function Language(className: Option<string>): (r: string)
    ensures r == [] <==> forall p :: !MatchesAt(ClassText(className), p)
    ensures forall i :: 0 <= i < |r| ==> IsWordChar(r[i])
  {
    var s := ClassText(className);
    match FirstMatch(s, 0)
    case None => ""
    case Some(p) => WordRun(s, p + |LanguagePrefix|)
  }

  /** The language is the word run captured at the leftmost match: a
      "language-" that is not followed by a word character is skipped. */
  lemma LanguageAtLeftmostMatch(className: Option<string>, p: nat)
    requires MatchesAt(ClassText(className), p)
    requires forall q: nat :: q < p ==> !MatchesAt(ClassText(className), q)
    ensures Language(className) == WordRun(ClassText(className), p + |LanguagePrefix|)
  {
  }

  /** Worked cases of the language rule. */
  lemma LanguageExamples()
    ensures Language(None) == ""
    ensures Language(Some("language-")) == ""
    ensures Language(Some("language-python")) == "python"
    ensures Language(Some("x language-- language-c++")) == "c"
  {
    var s := "language-python";
    assert s[0..9] == LanguagePrefix;
    LanguageAtLeftmostMatch(Some(s), 0);
    assert WordRun(s, 9) == "python";
    var t := "x language-- language-c++";
    assert t[13..22] == LanguagePrefix;
    forall q: nat | q < 13 ensures !MatchesAt(t, q) {
      if q == 2 { assert !IsWordChar(t[11]); }
      else { assert t[q] != 'l'; assert t[q..q + 9][0] == t[q]; }
    }
    LanguageAtLeftmostMatch(Some(t), 13);
    assert WordRun(t, 22) == "c";
    var u := "language-";
    assert forall p :: !MatchesAt(u, p);
  }

  /** `String(children).replace(/\n$/, "")`: one line feed removed from the
      very end, if there is one; nothing else changes. */
  function StripTrailingNewline(s: string): (r: string)
    ensures r == s || r + "\n" == s
    ensures r == s <==> (s == [] || s[|s| - 1] != '\n')
  {
    if s != [] && s[|s| - 1] == '\n' then s[..|s| - 1] else s
  }

  /** Stripping undoes exactly one appended line feed, so a run of line
      feeds at the end loses only its last one. */
  lemma StripUndoesOneNewline(t: string)
    ensures StripTrailingNewline(t + "\n") == t
    ensures StripTrailingNewline(t + "\n\n") == t + "\n"
  {
  }

  /** What the `code` renderer emits: a highlighted block with its language
      and trimmed code text, or plain inline code with the original class
      name and children. */
  datatype CodeView =
    | CodeBlock(language: string, value: string)
    | InlineCode(className: Option<string>, children: string)

  /** The `code` renderer's choice: the highlighted block exactly when the
      element is not inline and a language was found. */
  function RenderCode(inline: bool, className: Option<string>, children: string): (v: CodeView)
    ensures v.CodeBlock? <==> !inline && Language(className) != ""
    ensures v.CodeBlock? ==> v.language == Language(className)
    ensures v.CodeBlock? ==> v.value == StripTrailingNewline(children)
    ensures v.InlineCode? ==> v.className == className && v.children == children
  {
    var language := Language(className);
    if !inline && language != "" then CodeBlock(language, StripTrailingNewline(children))
    else InlineCode(className, children)
  }

  /** A highlighted block names a non-empty word-character language taken
      from a matching class name, and its code is the children text less at
      most one final line feed. */
  lemma CodeBlockShape(inline: bool, className: Option<string>, children: string)
    requires RenderCode(inline, className, children).CodeBlock?
    ensures className.Some?
    ensures exists p :: MatchesAt(className.value, p)
    ensures var v := RenderCode(inline, className, children);
            |v.language| > 0 && (v.value == children || v.value + "\n" == children)
  {
  }
}
