# IntegrAI chat client: verified model of its state rules

IntegrAI's web client is a React single-page chat application. Almost all
of it is markup, routing and HTTP plumbing. This project models, in Dafny,
the parts that hold observable state-update rules:

- **The auth slice** (`src/Redux/userSlice.js`). It is a Redux slice over
  `{user, isAuthenticated, access_token}` with four case reducers:
  `loginSuccess`, `logout`, `refreshAccessToken` and `setUser`.
  `UserSlice.AuthSlice` is a class whose methods assign the fields in
  place, as the reducers do on their state draft. `UserSlice.Reduce` is the
  same reducer as a function of state and action. Lemmas over sequences of
  dispatched actions say when the session is authenticated and which
  action's value each field holds.
- **The conversation sidebar** (`src/Containers/Chat/Components/TabNavigation.jsx`).
  It holds one row per tab, a delete button per row that is shown only
  while more than one tab exists, and a "New Chat" button. Each element's
  click handler is a function that returns the calls it makes into the
  parent (`setActiveTab`, `setTabs`, `deleteTab`). Event bubbling, and the
  `stopPropagation` of the delete button, are modelled explicitly.
  `TabNavigation.TabState` is the parent's pair of state slots, changed by
  those calls.
- **The chat page** (`src/Containers/Chat/index.jsx`). Its state is three
  fixed tabs, the active tab, one conversation shared by all tabs, and the
  text being typed. `sendMessage` appends the typed text as a user message
  unless it is blank. `ChatPage.ChatPageState` is the component's state
  slots. `ChatPage.Step` and `ChatPage.Run` replay a sequence of user
  events.
- **The chat area's rules** (`src/Containers/Chat/Components/ChatArea.jsx`).
  These cover the sender test and one bubble per message in order. They
  also cover the markdown `code` renderer's rules: the language from the
  class name by `/language-(\w+)/`, the code text less one trailing line
  feed, and the choice between a highlighted block and inline code.
- **The JavaScript built-ins these rules use** (module `JsText`):
  `String.prototype.trim`, with ECMAScript's whitespace and line-terminator
  set; the `\w` class of a regular expression without the `u` flag; and the
  decimal text a template literal gives a non-negative integer. The last one
  comes with a proof that it reads back, so distinct tab counts give
  distinct tab names.

Facts about this snapshot of the code that a reader might not expect:

- There is no streaming: `sendMessage` only appends the user's message and
  clears the input. No request is made and no bot reply is added.
- All tabs share one `messages` list; selecting a tab does not change the
  conversation.
- New Chat tries only the name `Chat ${tabs.length + 1}`. If that name is
  taken it does nothing; it does not search for a free name
  (`TabNavigation.NewChatBlockedByCollision`).
- The sidebar does not delete tabs itself. It only calls the `deleteTab` it
  is given, and how that moves the active index is decided by its parent.

The regular expression is modelled as written. It matches at the LEFTMOST
position where `language-` is followed by at least one word character. A
`language-` followed by a non-word character is skipped, and a later one
can still match (`ChatArea.LanguageExamples`).

## Model

| member | source | states |
|---|---|---|
| `JsText.TrimStart` | src/Containers/Chat/index.jsx:67 | the result is a suffix of the input, starts with a non-whitespace character, and only whitespace was dropped |
| `JsText.TrimEnd` | src/Containers/Chat/index.jsx:67 | the result is a prefix of the input, ends with a non-whitespace character, and only whitespace was dropped |
| `JsText.Trim` | src/Containers/Chat/index.jsx:67 | `trim()` is a contiguous piece of the input with only whitespace before and after it, no whitespace at either end of a non-empty result, and empty exactly when every character is ECMAScript whitespace |
| `JsText.TrimPieces` | src/Containers/Chat/index.jsx:67 | dropping whitespace from the front and then from the back leaves a contiguous piece of the input with only whitespace before and after it |
| `JsText.NumberToString` | src/Containers/Chat/Components/TabNavigation.jsx:52 | the decimal text of a count is a non-empty digit string with no leading zero |
| `JsText.ParseNumberToString` | src/Containers/Chat/Components/TabNavigation.jsx:52 | reading back the decimal text of n gives n |
| `JsText.NumberToStringInjective` | src/Containers/Chat/Components/TabNavigation.jsx:52 | different numbers have different decimal texts |
| `UserSlice.LogoutRestoresInitial` | src/Redux/userSlice.js:20-25 | after `logout` the state equals `initialState` (user null, not authenticated, token null), from any state |
| `UserSlice.LogoutIdempotent` | src/Redux/userSlice.js:20-25 | applying `logout` twice equals applying it once |
| `UserSlice.Reduce` | src/Redux/userSlice.js:14-33 | `user` takes the value written by `loginSuccess`, `logout` or `setUser` and is kept by `refreshAccessToken`; `access_token` takes the value written by `loginSuccess`, `logout` or `refreshAccessToken` and is kept by `setUser`; the session is authenticated after `loginSuccess` and `refreshAccessToken`, not after `logout`, and `setUser` keeps the flag; no reducer leaves an unauthenticated state holding a token |
| `UserSlice.ReduceAll` | src/Redux/userSlice.js:3-33 | every state reached from a consistent one (such as `initialState`) by any actions is consistent |
| `UserSlice.AuthenticatedIffGrantedSinceLogout` | src/Redux/userSlice.js:3-30 | starting from `initialState`, `isAuthenticated` holds exactly when a `loginSuccess` or `refreshAccessToken` was dispatched with no `logout` after it |
| `UserSlice.LastWriterWins` | src/Redux/userSlice.js:14-33 | after any actions, `user` holds the value of the last action that writes it (`loginSuccess`, `logout`, `setUser`; never `refreshAccessToken`), and `access_token` that of the last `loginSuccess`, `logout` or `refreshAccessToken`; each field keeps its start value when no action wrote it |
| `UserSlice.AuthSlice.constructor` | src/Redux/userSlice.js:3-8 | the store starts at `initialState`, which is consistent |
| `UserSlice.AuthSlice.LoginSuccess` | src/Redux/userSlice.js:14-19 | user and token come from the payload and the session is authenticated |
| `UserSlice.AuthSlice.Logout` | src/Redux/userSlice.js:20-25 | user and token become null, the session is not authenticated, and the state is `initialState` again |
| `UserSlice.AuthSlice.RefreshAccessToken` | src/Redux/userSlice.js:26-30 | the token is replaced, the session is authenticated, and the user is unchanged |
| `UserSlice.AuthSlice.SetUser` | src/Redux/userSlice.js:31-33 | only `user` changes; token and authentication flag are unchanged, and consistency is kept |
| `TabNavigation.NewTabName` | src/Containers/Chat/Components/TabNavigation.jsx:52 | the candidate name is "Chat " followed by digits, with no leading zero, that read back as `tabs.length + 1` |
| `TabNavigation.NewTabNameInjective` | src/Containers/Chat/Components/TabNavigation.jsx:52 | different tab counts give different candidate names |
| `TabNavigation.Handle` | src/Containers/Chat/Components/TabNavigation.jsx:29-56 | only the delete button stops propagation, and only it asks to delete, its own tab; a row selects itself; New Chat makes no call, or sets `tabs` to the old tabs plus one name not among them and then selects that new last tab |
| `TabNavigation.Dispatch` | src/Containers/Chat/Components/TabNavigation.jsx:29-41 | a click on a delete button reaches no other handler and only asks to delete its tab; any other click runs only its target's handler |
| `TabNavigation.Apply` | src/Containers/Chat/Components/TabNavigation.jsx:29-55 | the parent's slots change only through calls that set them: `tabs` is kept without a `setTabs` call, `activeTab` without a `setActiveTab` call, and a changed slot holds a value one of those calls passed |
| `TabNavigation.DeleteRequests` | src/Containers/Chat/Components/TabNavigation.jsx:40 | every index passed to `deleteTab` comes from a delete call of the click, every delete call contributes its index, and no delete call means no request |
| `TabNavigation.DeleteRequestsAppend` | src/Containers/Chat/Components/TabNavigation.jsx:38-41 | deletion requests keep the order of the calls: later calls' requests come after earlier ones |
| `TabNavigation.SelectTab` | src/Containers/Chat/Components/TabNavigation.jsx:29 | clicking row i sets `activeTab` to i, leaves `tabs` alone and requests no deletion |
| `TabNavigation.DeleteClickDoesNotSelect` | src/Containers/Chat/Components/TabNavigation.jsx:38-41 | a click on a delete button requests deletion of that tab only; propagation is stopped, so the row is not also selected |
| `TabNavigation.DeleteNeedsSeveralTabs` | src/Containers/Chat/Components/TabNavigation.jsx:35-45 | a deletion is requested only by a delete button, only for an existing tab, and only while more than one tab exists |
| `TabNavigation.NewChat` | src/Containers/Chat/Components/TabNavigation.jsx:51-56 | if the candidate name is free, it is appended after the unchanged tabs and `activeTab` becomes the old length; if it is taken, `tabs` and `activeTab` are unchanged |
| `TabNavigation.NewChatOnNumbered` | src/Containers/Chat/Components/TabNavigation.jsx:52-55 | on a list "Chat 1" … "Chat n", the candidate is always free, the new tab becomes active, and the list stays numbered |
| `TabNavigation.NewChatBlockedByCollision` | src/Containers/Chat/Components/TabNavigation.jsx:53 | on ["Chat 2", "Chat 3"] the candidate "Chat 3" is taken and New Chat changes nothing: no free name is searched for |
| `TabNavigation.NewChatFromOneTab` | src/Containers/Chat/Components/TabNavigation.jsx:51-56 | New Chat on ["Chat 1"] gives ["Chat 1", "Chat 2"] with tab 1 active |
| `TabNavigation.TabState.Click` | src/Containers/Chat/Components/TabNavigation.jsx:21-57 | a click leaves the state slots as the handlers' calls set them, and returns the deletion requests: a row selects, a delete button changes nothing and requests its index, and New Chat appends and selects or does nothing |
| `ChatArea.RenderMessage` | src/Containers/Chat/Components/ChatArea.jsx:48-62 | a message is shown as the user's exactly when its sender is "user"; its text is passed through unchanged |
| `ChatArea.OtherSendersAreBot` | src/Containers/Chat/Components/ChatArea.jsx:48 | "bot", "User" and "" are all shown as the bot; only "user" is the user |
| `ChatArea.RenderMessages` | src/Containers/Chat/Components/ChatArea.jsx:120-122 | one bubble per message, in list order |
| `ChatArea.RenderAppend` | src/Containers/Chat/Components/ChatArea.jsx:120-122 | rendering an extended conversation appends the new bubbles after the existing ones |
| `ChatArea.FirstMatch` | src/Containers/Chat/Components/ChatArea.jsx:67 | the result is the leftmost position where `language-` is followed by a word character, or none when there is no such position |
| `ChatArea.WordRun` | src/Containers/Chat/Components/ChatArea.jsx:67 | the greedy `(\w+)` capture: word characters only, and not followed by another word character |
| `ChatArea.Language` | src/Containers/Chat/Components/ChatArea.jsx:67-68 | the language is empty exactly when the regular expression does not match the class name (or there is none); otherwise it is made of word characters |
| `ChatArea.LanguageAtLeftmostMatch` | src/Containers/Chat/Components/ChatArea.jsx:67-68 | the language is the maximal run of word characters after the leftmost matching `language-` |
| `ChatArea.LanguageExamples` | src/Containers/Chat/Components/ChatArea.jsx:67-68 | no class name and "language-" give ""; "language-python" gives "python"; in "x language-- language-c++" the first prefix is skipped and the language is "c" |
| `ChatArea.StripTrailingNewline` | src/Containers/Chat/Components/ChatArea.jsx:69 | the result is the input, or the input less one final line feed; it changes exactly when the input ends in a line feed |
| `ChatArea.StripUndoesOneNewline` | src/Containers/Chat/Components/ChatArea.jsx:69 | stripping removes one appended line feed, and only the last of two |
| `ChatArea.RenderCode` | src/Containers/Chat/Components/ChatArea.jsx:66-77 | a highlighted block is chosen exactly when the element is not inline and the language is non-empty; the block carries that language and the stripped text; inline code keeps the original class name and the untrimmed children |
| `ChatArea.CodeBlockShape` | src/Containers/Chat/Components/ChatArea.jsx:67-72 | a highlighted block has a class name that matches the expression, a non-empty language, and code equal to the children or the children less a final line feed |
| `ChatPage.Initial` | src/Containers/Chat/index.jsx:53-63 | the page starts on tab 0 with an empty input and three non-blank messages, the first from the bot and the second from the user |
| `ChatPage.Send` | src/Containers/Chat/index.jsx:65-71 | blank input leaves the page unchanged; otherwise exactly one user message with the untrimmed input is appended after the unchanged earlier messages, and the input is cleared |
| `ChatPage.Step` | src/Containers/Chat/index.jsx:15 | selecting a tab changes only `activeTab`, never `messages` or the input; typing changes only the input |
| `ChatPage.Run` | src/Containers/Chat/index.jsx:15-95 | over any events, the conversation is unchanged when nothing is submitted, and the active tab is unchanged when no tab is clicked |
| `ChatPage.DoubleSubmitSendsOnce` | src/Containers/Chat/index.jsx:67-69 | submitting twice in a row appends at most one message, because the first send clears the input |
| `ChatPage.RunAppendsUserMessages` | src/Containers/Chat/index.jsx:65-71 | over any sequence of events the conversation only grows: earlier messages keep their places and order, every added message is a non-blank user message, and at most one is added per submit |
| `ChatPage.SendRendersOneUserBubble` | src/Containers/Chat/index.jsx:68 | a successful send shows exactly one new user bubble with the typed text, below the existing ones |
| `ChatPage.InitialTabsNumbered` | src/Containers/Chat/index.jsx:52 | the fixed tabs are "Chat 1" to "Chat 3", the names New Chat would have given them |
| `ChatPage.ChatPageState.constructor` | src/Containers/Chat/index.jsx:52-63 | the state slots start with the three fixed tabs, tab 0, the three fixed messages and an empty input |
| `ChatPage.ChatPageState.SetActiveTab` | src/Containers/Chat/index.jsx:15 | clicking tab i sets `activeTab` to i and leaves the messages and the input unchanged |
| `ChatPage.ChatPageState.SetNewMessage` | src/Containers/Chat/index.jsx:95 | typing sets the input and leaves the rest unchanged |
| `ChatPage.ChatPageState.SendMessage` | src/Containers/Chat/index.jsx:65-71 | blank input changes nothing; otherwise `messages` gains one user message with the untrimmed input at the end, and the input becomes "" |

The chat page renders through its own local `ChatArea` component
(src/Containers/Chat/index.jsx:25-48), not the one in
`Components/ChatArea.jsx`. Its sender test (lines 32-37) is the same rule
as `ChatArea.IsUser`, but it shows a bot message as plain text rather than
markdown. `ChatPage.SendRendersOneUserBubble` is stated with
`ChatArea.RenderMessages`; it holds for the local renderer too, because
both put the user's text, unchanged, in one bubble per message.

## Left out

- The streaming chat controller, the request to the chat endpoint and its failure message. They are not in this snapshot of the chat page.
- The body of `deleteTab`, and how it moves `activeTab`. The sidebar receives it as a prop, and its parent is not part of this model. A deletion is modelled as the request the sidebar makes.
- The parent that owns `tabs` and `setTabs` for the sidebar is not part of this model. `TabNavigation.TabState` stands for its two state slots.
- The sign-out button (`useAuth`, navigation), the landing page, the router, the HTTP and token-refresh plumbing, toasts and the clipboard. They are I/O or calls into libraries.
- All markup, CSS classes, avatars, the scroll-to-bottom effect, the markdown and syntax-highlighting output, and the copy button of a code block.
- `e.preventDefault()` in `sendMessage` is a browser side effect and is not modelled.
- React's asynchronous, batched state updates are not modelled. Each handler's calls are applied in order to the values it read, and that gives the same result for these handlers.
- A dispatch whose payload is missing: `action.payload.user`, `action.payload.access_token` (src/Redux/userSlice.js:16, 18, 28) would throw a `TypeError` and leave the state unchanged. Every action here carries its payload.
- Missing values: `null` and `undefined` are both `None`. Payload fields that are absent are not distinguished from `null`. An absent `inline` prop is `false`.
- Code-element children are modelled as a string. `String(children)` of other values is not modelled.
- In the inline branch, the class attribute string (where a missing class name prints as "undefined") is styling and is not modelled. The model keeps the original class name.
- JavaScript strings are UTF-16. The model works on Unicode scalar values. This makes no difference to `trim`, `\w` or "\n", which are all in the Basic Multilingual Plane.
- `initialState` lists `user: null` twice. The later key wins and has the same value, so the model has one `user` field.
