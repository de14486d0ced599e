# G-connect frontend: chat state and import rewriter, in Dafny

This project models the two pieces of sequential logic in the G-connect
chat frontend:

- **The chat state of `App`** (src/App.tsx). The handlers for logging in,
  selecting a contact, starting a chat, sending, receiving, loading
  history and fetching contacts are written as pure functions. Each takes
  the state and the input and yields the next state. Where the handler
  calls the backend, the result also lists the backend requests it starts.
  - Module `ChatTypes` holds the records: `Contact`, `Message`, the
    history record and the state hooks.
  - Module `Chat` holds the handlers.
  - Module `ChatMachine` makes them transitions of one event machine and
    proves how they combine.
- **The import fixer** (fix-radix-imports.js). It removes version suffixes
  from `@radix-ui/<name>@<x>.<y>.<z>` import specifiers in the `.ts` and
  `.tsx` files of a directory tree.
  - Module `RadixMatch` is the pattern `/@radix-ui\/([\w-]+)@\d+\.\d+\.\d+/`
    matched at one position.
  - Module `RadixRewrite` is the global `replace`, and the
    write-only-if-changed decision of `fixFile`.
  - Module `RadixWalk` is `walkDir` over an in-memory directory tree.

Modelling choices:

- **JavaScript truthiness.** `if (currentUser)` and `!activeContactId` are
  truthiness tests on optional strings. `Present` models them: an absent
  value and an empty string are both false. `messages[id] || []` yields
  the stored array whenever one exists, even an empty one, because arrays
  are always truthy.
- **Order of React updates.** A handler's state updates are applied in
  the order React queues them. So in `handleStartNewChat` the contact is
  appended before `handleContactSelect` resets its unread count, and the
  new contact ends with `unreadCount` 0.
- **Inputs from outside.** `Date.now()` ids and `toLocaleTimeString`
  strings are plain inputs. Nothing is assumed about their uniqueness.
- **Backend answers.** The answer to a request is a later event
  (`ContactsArrived`, `HistoryArrived`) that carries what the request was
  made with.
- **Which matches are found.** Without the `u` flag, `\w` is
  `[A-Za-z0-9_]`. Neither `[\w-]` nor `\d` contains `@` or `.`, so only the
  last `\d+` can end in more than one place, and the engine takes it as
  long as possible. `IsMatchOf` states this declaratively. `MatchFront`
  computes it, and the two are proved to agree in both directions.
- **Resizing.** Resizing the window only recomputes `isMobile`; the pane
  on screen stays as it was. This follows the code (src/App.tsx:26).

## Model

| member | source | states |
|---|---|---|
| ChatTypes.Initial | src/App.tsx:17-22 | before the first render nobody is logged in and no contact is active, and the desktop layout shows the sidebar with no contacts or messages |
| ChatMachine.InitialShowsNothing | src/App.tsx:17-22 | in the initial state there is no active contact, no visible message, and the view invariant holds |
| Chat.Login | src/App.tsx:33-48 | logging in records the user; contacts are requested and the room joined exactly when the user is non-empty and differs from the one before, and nothing else changes |
| ChatMachine.LoginTwiceRequestsOnce | src/App.tsx:33-41 | logging in again as the same user starts no requests, since the effect only runs when `currentUser` changes |
| ChatMachine.ContactsLastAnswerWins | src/App.tsx:35-37 | of two contacts answers, only the later one counts, whether it is a list or a failure |
| Chat.ContactsFetched | src/App.tsx:35-37 | a loaded contact list replaces the old one, a failed request empties it, and nothing else changes |
| Chat.SelectContact | src/App.tsx:50-72 | the contact becomes active; contacts with that id get unread count 0; every other contact, the list length and the order are kept; the mobile layout switches to the chat pane; messages are untouched; the history is requested only for a logged-in user |
| ChatMachine.SelectContactIdempotent | src/App.tsx:50-72 | selecting the same contact twice leaves the same state as selecting it once |
| ChatMachine.SelectShowsConversation | src/App.tsx:44 | after selecting a contact with a non-empty id, the visible messages are that contact's stored conversation, or none |
| ChatMachine.SelectMakesContactActive | src/App.tsx:43-70 | after selecting a listed contact, the active contact is the first contact with that id, with its unread count now 0 |
| ChatMachine.FindIndexIsFirst | src/App.tsx:75 | the lookup returns the first matching position, whichever position that is |
| ChatMachine.LowerIdempotent | src/App.tsx:75 | lower-casing twice gives the same result as lower-casing once |
| ChatMachine.ByNameIgnoresCase | src/App.tsx:75 | the lookup by name finds the same contacts for a username and for its lower-cased form |
| Chat.ToMessages | src/App.tsx:58-65 | one message per history record, in order, with the record's id, text and time, and sent, delivered and read exactly when the record's sender is the logged-in user |
| Chat.HistoryLoaded | src/App.tsx:54-67 | a loaded history replaces only the selected contact's conversation; a failed request (there is no error handler) changes nothing |
| ChatMachine.HistoryLoadedIdempotent | src/App.tsx:56-66 | applying the same history answer twice is the same as applying it once |
| Chat.StartNewChat | src/App.tsx:74-92 | if a contact's name equals the username ignoring case, no contact is added, messages are untouched and such a contact is made active; otherwise every existing contact is kept in place (one whose id equals the new id has its unread count reset), exactly one contact is appended at the end (name = username, preview "Started a conversation", online, unread 0), its conversation is set to empty and no other conversation changes, it is made active, the mobile layout switches to the chat pane, and its history is requested when a user is logged in |
| ChatMachine.StartNewChatWithNewName | src/App.tsx:80-91 | with no contact whose name matches ignoring case, starting a chat is exactly appending the new contact, giving it an empty conversation, and selecting it |
| ChatMachine.StartNewChatWithKnownName | src/App.tsx:75-79 | with a contact whose name matches ignoring case, starting a chat is exactly selecting the first such contact |
| ChatMachine.StartNewChatNameFindable | src/App.tsx:75-91 | after starting a chat, some contact's name matches the username ignoring case |
| ChatMachine.StartNewChatTwiceAddsAtMostOne | src/App.tsx:74-92 | starting a chat twice with the same name adds at most one contact |
| Chat.BackToSidebar | src/App.tsx:94 | the mobile layout shows the sidebar and nothing else changes |
| Chat.Resize | src/App.tsx:26 | the mobile flag is set exactly when the width is below 768 pixels, and nothing else changes |
| ChatMachine.ResizeLastWins | src/App.tsx:25-30 | only the last resize matters, and resizing keeps contacts, messages and the pane shown |
| Chat.SendMessage | src/App.tsx:96-119 | with no active contact or no user, nothing changes and nothing is emitted; otherwise exactly one message (sent, delivered, given text) is appended to the active conversation, which is created if absent, no other conversation changes, the message is emitted once, and only contacts with the active id get the text as preview and "now" as time |
| ChatMachine.SendShowsInCurrentMessages | src/App.tsx:113-116 | after a send, the visible messages are the previous ones plus the sent message |
| Chat.ReceiveMessage | src/App.tsx:122-148 | an unknown sender gets exactly one new contact at the end, with every existing contact kept (id and name = sender, preview = text, time "now", online, no avatar, no unread count); a known sender's contacts are unchanged; exactly one unsent message is appended to the sender's conversation and no other conversation changes |
| ChatMachine.ReceiveShowsInCurrentMessages | src/App.tsx:136-144 | a message from the active contact appears at the end of the visible messages |
| ChatMachine.ReceiveTwiceAppendsTwice | src/App.tsx:123-145 | the same event received twice leaves two copies of the message and, when the second delivery is handled after the listener has seen the first one's contact, adds at most one contact: there is no deduplication |
| Chat.ActiveContact | src/App.tsx:43 | the active contact is the first listed contact with the active id, and there is none exactly when no id is active or no contact has it |
| Chat.CurrentMessages | src/App.tsx:44 | with a non-empty active id that has a stored conversation, the visible messages are that conversation; with no active id, an empty one, or no stored conversation, there are none |
| Chat.FindIndex | src/App.tsx:75 | the position of the first contact that matches by id, or by name ignoring case, and none exactly when no contact matches |
| Chat.Find | src/App.tsx:75 | `contacts.find`: a listed contact that matches is returned, and there is one exactly when some contact matches; `FindIndexIsFirst` pins it to the first |
| Chat.EditWhere | src/App.tsx:70 | `prev.map(...)`: contacts with the given id are edited, all others kept, and length and order preserved |
| Chat.AppendMessage | src/App.tsx:136-144 | one message added at the end of one conversation, which starts empty if absent; other conversations unchanged |
| ChatMachine.Apply | src/App.tsx:17-148 | no event removes a conversation, and none shows the chat pane without an active contact id (the id need not name a listed contact) |
| ChatMachine.Run | src/App.tsx:17-148 | over any sequence of events, conversations are never removed and the chat pane needs an active contact id |
| ChatMachine.ReachableViewInvariant | src/App.tsx:21-94 | from the initial state, the chat pane is never shown without an active contact id; a selected id that no listed contact has, or a contact list emptied by a failed fetch, still leaves the chat pane shown with no contact |
| ChatMachine.MessagesOnlyGrow | src/App.tsx:113-144 | sending and receiving only extend conversations: earlier messages stay in place |
| RadixMatch.MatchFront | fix-radix-imports.js:8 | a match found at the front is a decomposition the pattern accepts, with the last digit run maximal |
| RadixMatch.MatchFrontComplete | fix-radix-imports.js:8 | every decomposition the pattern accepts whose last digit run is maximal is the one found |
| RadixMatch.MatchFrontExact | fix-radix-imports.js:8 | the pattern matches at the front exactly when some decomposition is accepted |
| RadixMatch.MatchVersion | fix-radix-imports.js:8 | `@\d+\.\d+\.\d+` at the front, with three non-empty digit runs and the last one maximal |
| RadixMatch.MatchVersionComplete | fix-radix-imports.js:8 | every such version suffix is found |
| RadixMatch.SplitRun | fix-radix-imports.js:8 | a greedy `[\w-]*` or `\d*` split: the run lies in the class and the next character does not |
| RadixMatch.MatchLengthBounds | fix-radix-imports.js:8 | an occurrence spans at least 17 characters, and its version suffix at least 6 |
| RadixMatch.NoMatchInside | fix-radix-imports.js:8 | no occurrence starts strictly inside another, so the global scan misses none |
| RadixRewrite.Scan | fix-radix-imports.js:12 | the left-to-right scan's segments spell out the input exactly, and every replaced segment is an accepted occurrence |
| RadixRewrite.EveryOccurrenceReplaced | fix-radix-imports.js:8-12 | the scan replaces at position i exactly when the pattern matches at position i |
| RadixRewrite.RewriteUnchangedIffNoMatch | fix-radix-imports.js:12-13 | the output equals the input exactly when there is no occurrence, and is strictly shorter exactly when there is one |
| RadixRewrite.Rewrite | fix-radix-imports.js:12 | the output is never longer than the input |
| RadixRewrite.RenderLength | fix-radix-imports.js:12 | replacing only shortens, shortens exactly when something is replaced, and changes nothing otherwise |
| RadixRewrite.RewriteKeepsOrder | fix-radix-imports.js:12 | the output is the input with some characters deleted, in the same order |
| RadixRewrite.RewriteAfterOccurrence | fix-radix-imports.js:12 | text starting with an occurrence becomes `@radix-ui/<name>` followed by the rewrite of what follows |
| RadixRewrite.RewriteStepKeep | fix-radix-imports.js:12 | text not starting with an occurrence keeps its first character and rewrites the rest |
| RadixRewrite.ReplaceAll | fix-radix-imports.js:12 | the engine's loop over positions computes the same text as the scan |
| RadixRewrite.FixFile | fix-radix-imports.js:10-17 | content is written back exactly when it contains an occurrence, and then it is the rewritten, strictly shorter text |
| RadixRewrite.ShortTextUnchanged | fix-radix-imports.js:12 | text shorter than 17 characters comes back unchanged |
| RadixRewrite.RewriteNotIdempotent | fix-radix-imports.js:8-12 | `@radix-ui/x@1.2.3@4.5.6` becomes `@radix-ui/x@4.5.6`, which a second pass turns into `@radix-ui/x` |
| RadixWalk.SourceFileExamples | fix-radix-imports.js:24 | the filter `IsSourceFile` passes `.tsx` and `.ts` paths, `.d.ts` included, and rejects `.js`, `.tsx.map` and a bare `ts` |
| RadixWalk.WalkEntries | fix-radix-imports.js:19-28 | the walk keeps one entry per entry listed; its shape, the contents it leaves and the files it writes are stated by `WalkKeepsShape`, `WalkFixesEveryFile` and `WalkWritesChangedFiles` |
| RadixWalk.SourceFileByName | fix-radix-imports.js:21-24 | the `.tsx`/`.ts` test on the joined path gives the same answer as on the entry name |
| RadixWalk.EndsWithThroughJoin | fix-radix-imports.js:21-24 | a suffix without `/` ends the joined path exactly when it ends the entry name |
| RadixWalk.WalkKeepsShape | fix-radix-imports.js:19-28 | the walk keeps every entry's name, kind and position, and every directory's shape |
| RadixWalk.WalkFixesEveryFile | fix-radix-imports.js:19-28 | after the walk, every file at every path holds its rewrite if it is a source file and is unchanged otherwise |
| RadixWalk.WalkWritesChangedFiles | fix-radix-imports.js:10-28 | the files written are exactly the source files containing an occurrence, in traversal order, each with its rewritten content |

## Left out

- Rendering, the `motion` animations and the login screen switch (src/App.tsx:150-211): presentation only.
- Backend traffic. The HTTP calls, the socket connection and its `emit`/`on` registration (src/App.tsx:14, 35, 39, 54, 107-111, 123, 147) are network I/O. The model records that a request or emit is started (`Effect`) and applies the answer that comes back as an event.
- ReceiveTwiceAppendsTwice: assumes the listener sees the contacts as they are after the first delivery. The code's listener looks the sender up in the `contacts` it captured when it was registered (src/App.tsx:124, 148) but appends to the current list (src/App.tsx:133). A redelivery handled before the listener is registered again therefore adds the sender a second time. The model does not show that.
- Ordering between concurrent answers and socket events, and the stale `contacts` captured by the receive listener (src/App.tsx:122-148). These are React scheduling and concurrency. The model applies each event to the current state.
- `Date.now()` ids and `toLocaleTimeString` output: they are inputs. As in the code, a new chat whose id already names a conversation resets that conversation to empty.
- MessagesOf: the message store is modelled as a map that holds only the conversations put into it. The code keeps it in a plain object (src/App.tsx:20), where `prev[id] || []` (src/App.tsx:44, 115, 138) also finds inherited members such as `toString` or `constructor`. For such an id the code spreads a non-array and throws, so a user named `toString` who sends a message crashes the app. The model instead appends to an empty conversation.
- Lower: only ASCII letters are lowered; the full Unicode case mapping of `toLowerCase` is left out.
- The resize listener's registration and removal (src/App.tsx:25-30). Only the width test and its effect on the state are modelled.
- File-system I/O and logging in fix-radix-imports.js. Files are read from and written to an in-memory tree, and "Fixed:" messages are not modelled. `path.join` is modelled as joining with `/`, without normalisation. Symbolic links and `statSync` errors are not modelled, and neither is the starting folder `src/components/ui` under the script's directory (line 5).
- src/types.ts is not part of this model. The fields of `Contact` and `Message` are the ones src/App.tsx reads and writes.
