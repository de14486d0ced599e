/**
  The event handlers of `App` in src/App.tsx as pure functions: each takes
  the state the handler sees and its input, and yields the state after React
  has applied the handler's updates, with the backend requests it started.
  Generated ids (`Date.now()`) and formatted times are inputs.
 */
module Chat {
  import opened Wrappers
  import opened ChatTypes

  /** Windows narrower than this many pixels get the mobile layout. */
  const MobileBreakpoint: int := 768

  /** `checkIsMobile`: the layout for a window `width` pixels wide is the mobile one. */
  predicate IsMobileWidth(width: int) {
    width < MobileBreakpoint
  }

  /** Lower-cases an ASCII capital; every other character is kept. */
  function LowerChar(c: char): char {
    if 'A' <= c <= 'Z' then (c as int + 32) as char else c
  }

  /** `String.prototype.toLowerCase`, for the ASCII letters. */
  function Lower(s: string): (r: string)
    ensures |r| == |s|
    ensures forall i :: 0 <= i < |s| ==> r[i] == LowerChar(s[i])
  {
    if |s| == 0 then [] else [LowerChar(s[0])] + Lower(s[1..])
  }

  /** How a handler looks a contact up: by id, or by name ignoring case. */
  datatype Key = ById(id: string) | ByName(name: string)

  predicate Matches(c: Contact, k: Key) {
    match k
    case ById(id) => c.id == id
    case ByName(name) => Lower(c.name) == Lower(name)
  }

  /** The position of the first contact that matches `k`; `Find` returns the contact there. */
  function FindIndex(cs: seq<Contact>, k: Key): (r: Option<nat>)
    ensures r.Some? ==> r.value < |cs| && Matches(cs[r.value], k)
    ensures r.Some? ==> forall j :: 0 <= j < r.value ==> !Matches(cs[j], k)
    ensures r.None? ==> forall j :: 0 <= j < |cs| ==> !Matches(cs[j], k)
  {
    if |cs| == 0 then None
    else if Matches(cs[0], k) then Some(0)
    else
      match FindIndex(cs[1..], k)
      case None => None
      case Some(j) => Some(j + 1)
  }

  /** `contacts.find(...)`: the first contact that matches `k`, if any. */
  function Find(cs: seq<Contact>, k: Key): (r: Option<Contact>)
    ensures r.Some? <==> exists j :: 0 <= j < |cs| && Matches(cs[j], k)
    ensures r.Some? ==> r.value in cs && Matches(r.value, k)
  {
    match FindIndex(cs, k)
    case None => None
    case Some(j) => Some(cs[j])
  }

  /** The two ways a handler edits contacts in place. */
  datatype Edit = ClearUnread | Preview(text: string)

  function Edited(c: Contact, e: Edit): Contact {
    match e
    case ClearUnread => c.(unreadCount := Some(0))
    case Preview(text) => c.(lastMessage := text, timestamp := "now")
  }

  /**
    `prev.map(c => c.id === id ? edit(c) : c)`: the contacts with that id are
    edited, every other contact is kept, and the order stays.
   */
  function EditWhere(cs: seq<Contact>, id: string, e: Edit): (r: seq<Contact>)
    ensures |r| == |cs|
    ensures forall i :: 0 <= i < |cs| && cs[i].id == id ==> r[i] == Edited(cs[i], e)
    ensures forall i :: 0 <= i < |cs| && cs[i].id != id ==> r[i] == cs[i]
  {
    if |cs| == 0 then []
    else [if cs[0].id == id then Edited(cs[0], e) else cs[0]] + EditWhere(cs[1..], id, e)
  }

  /** `messages[id] || []`: the conversation with `id`, empty when there is none yet. */
  function MessagesOf(ms: map<string, seq<Message>>, id: string): seq<Message> {
    if id in ms then ms[id] else []
  }

  /** `after` is `before` with conversation `id` set to `v`; no other conversation differs. */
  predicate OnlyKeyChanged(before: map<string, seq<Message>>, after: map<string, seq<Message>>, id: string, v: seq<Message>) {
    && after.Keys == before.Keys + {id}
    && id in after && after[id] == v
    && forall k :: k in before && k != id ==> after[k] == before[k]
  }

  /** `{ ...prev, [id]: [...(prev[id] || []), m] }`: one message added at the end of one conversation. */
  function AppendMessage(ms: map<string, seq<Message>>, id: string, m: Message): (r: map<string, seq<Message>>)
    ensures OnlyKeyChanged(ms, r, id, MessagesOf(ms, id) + [m])
    ensures |MessagesOf(r, id)| == |MessagesOf(ms, id)| + 1 && MessagesOf(r, id)[|MessagesOf(ms, id)|] == m
  {
    ms[id := MessagesOf(ms, id) + [m]]
  }

  /**
    `handleLogin`, with the effect that runs when `currentUser` changes: a
    non-empty new user gets the contact list requested and joins its room.
   */
  function Login(s: AppState, username: string): (r: Step)
    ensures r.state.currentUser == Some(username)
    ensures r.state == s.(currentUser := r.state.currentUser)
    ensures |r.effects| > 0 <==> username != "" && s.currentUser != Some(username)
    ensures |r.effects| > 0 ==> r.effects == [FetchContacts(username), JoinRoom(username)]
  {
    var changed := s.currentUser != Some(username);
    Step(s.(currentUser := Some(username)),
         if changed && Present(Some(username)) then [FetchContacts(username), JoinRoom(username)] else [])
  }

  /** The answer to the contacts request: the list replaces the old one, and a failure empties it. */
  function ContactsFetched(s: AppState, result: Fetched<seq<Contact>>): (r: AppState)
    ensures result.Loaded? ==> r.contacts == result.data
    ensures result.Failed? ==> r.contacts == []
    ensures r == s.(contacts := r.contacts)
  {
    match result
    case Loaded(cs) => s.(contacts := cs)
    case Failed => s.(contacts := [])
  }

  /**
    `handleContactSelect`: the contact becomes active, its unread count drops
    to 0, the mobile layout switches to the chat pane, and a logged-in user
    gets the history requested.
   */
  function SelectContact(s: AppState, contactId: string): (r: Step)
    ensures r.state.activeContactId == Some(contactId)
    ensures |r.state.contacts| == |s.contacts|
    ensures forall i :: 0 <= i < |s.contacts| && s.contacts[i].id == contactId ==>
      r.state.contacts[i] == s.contacts[i].(unreadCount := Some(0))
    ensures forall i :: 0 <= i < |s.contacts| && s.contacts[i].id != contactId ==> r.state.contacts[i] == s.contacts[i]
    ensures s.isMobile ==> r.state.mobileView == ChatView
    ensures !s.isMobile ==> r.state.mobileView == s.mobileView
    ensures r.state.messages == s.messages && r.state.currentUser == s.currentUser && r.state.isMobile == s.isMobile
    ensures Present(s.currentUser) ==> r.effects == [FetchHistory(s.currentUser.value, contactId)]
    ensures !Present(s.currentUser) ==> r.effects == []
  {
    var view := if s.isMobile then ChatView else s.mobileView;
    var next := s.(activeContactId := Some(contactId),
                   contacts := EditWhere(s.contacts, contactId, ClearUnread),
                   mobileView := view);
    Step(next, if Present(s.currentUser) then [FetchHistory(s.currentUser.value, contactId)] else [])
  }

  /** One history record as a message: sent, delivered and read exactly when `user` sent it. */
  function ToMessage(rec: HistoryRecord, user: string): Message {
    var mine := rec.sender == user;
    Message(rec.recordId, rec.text, rec.time, mine, Some(mine), Some(mine))
  }

  /** `res.data.map(...)` of the history request: one message per record, in order. */
  function ToMessages(recs: seq<HistoryRecord>, user: string): (r: seq<Message>)
    ensures |r| == |recs|
    ensures forall i :: 0 <= i < |recs| ==>
      && r[i].id == recs[i].recordId && r[i].text == recs[i].text && r[i].timestamp == recs[i].time
      && r[i].isSent == (recs[i].sender == user)
      && r[i].isDelivered == Some(r[i].isSent) && r[i].isRead == Some(r[i].isSent)
  {
    if |recs| == 0 then [] else [ToMessage(recs[0], user)] + ToMessages(recs[1..], user)
  }

  /**
    The answer to the history request that selecting `contactId` started while
    `user` was logged in: it replaces that one conversation. The request has
    no error handler, so a failure changes nothing.
   */
  function HistoryLoaded(s: AppState, user: string, contactId: string, result: Fetched<seq<HistoryRecord>>): (r: AppState)
    ensures result.Failed? ==> r == s
    ensures result.Loaded? ==> OnlyKeyChanged(s.messages, r.messages, contactId, ToMessages(result.data, user))
    ensures r == s.(messages := r.messages)
  {
    match result
    case Failed => s
    case Loaded(recs) => s.(messages := s.messages[contactId := ToMessages(recs, user)])
  }

  /** The contact that a new chat or an unknown sender creates. */
  function NewContact(id: string, name: string, lastMessage: string): Contact {
    Contact(id, name, "", lastMessage, "now", true, None)
  }

  /** The preview line of a contact that `handleStartNewChat` creates. */
  const StartedPreview: string := "Started a conversation"

  /**
    `handleStartNewChat`: a contact whose name equals `username` ignoring case
    is selected; otherwise a contact with id `newId` is appended, given an
    empty conversation, and selected.
   */
  function StartNewChat(s: AppState, username: string, newId: string): (r: Step)
    ensures (exists j :: 0 <= j < |s.contacts| && Matches(s.contacts[j], ByName(username))) ==>
      && |r.state.contacts| == |s.contacts|
      && r.state.messages == s.messages
      && r.state.activeContactId.Some?
      && exists j :: 0 <= j < |s.contacts| && Matches(s.contacts[j], ByName(username)) && r.state.activeContactId.value == s.contacts[j].id
    ensures (forall j :: 0 <= j < |s.contacts| ==> !Matches(s.contacts[j], ByName(username))) ==>
      && |r.state.contacts| == |s.contacts| + 1
      && (forall i :: 0 <= i < |s.contacts| ==>
            r.state.contacts[i] == (if s.contacts[i].id == newId then s.contacts[i].(unreadCount := Some(0)) else s.contacts[i]))
      && r.state.contacts[|s.contacts|] == NewContact(newId, username, StartedPreview).(unreadCount := Some(0))
      && OnlyKeyChanged(s.messages, r.state.messages, newId, [])
      && r.state.activeContactId == Some(newId)
      && (s.isMobile ==> r.state.mobileView == ChatView)
      && (!s.isMobile ==> r.state.mobileView == s.mobileView)
      && r.state.currentUser == s.currentUser && r.state.isMobile == s.isMobile
      && r.effects == (if Present(s.currentUser) then [FetchHistory(s.currentUser.value, newId)] else [])
  {
    match Find(s.contacts, ByName(username))
    case Some(c) => SelectContact(s, c.id)
    case None =>
      var created := s.(contacts := s.contacts + [NewContact(newId, username, StartedPreview)],
                        messages := s.messages[newId := []]);
      SelectContact(created, newId)
  }

  /** `handleBackToSidebar`: the mobile layout shows the contact list again. */
  function BackToSidebar(s: AppState): (r: AppState)
    ensures r.mobileView == SidebarView
    ensures r == s.(mobileView := r.mobileView)
  {
    s.(mobileView := SidebarView)
  }

  /** The window was resized: only the mobile flag follows the width; the pane shown stays. */
  function Resize(s: AppState, width: int): (r: AppState)
    ensures r.isMobile <==> width < MobileBreakpoint
    ensures r == s.(isMobile := r.isMobile)
  {
    s.(isMobile := IsMobileWidth(width))
  }

  /** The message `handleSendMessage` appends. */
  function SentMessage(text: string, newId: string, time: string): Message {
    Message(newId, text, time, true, Some(true), None)
  }

  /** Both guards of `handleSendMessage` pass: a contact is active and someone is logged in. */
  predicate CanSend(s: AppState) {
    Present(s.activeContactId) && Present(s.currentUser)
  }

  /**
    `handleSendMessage`: with a contact active and a user logged in, the
    message is emitted, appended to the active conversation, and becomes the
    active contact's preview. Otherwise nothing happens.
   */
  function SendMessage(s: AppState, text: string, newId: string, time: string): (r: Step)
    ensures !CanSend(s) ==> r == Step(s, [])
    ensures CanSend(s) ==>
      var id := s.activeContactId.value;
      && r.effects == [EmitMessage(s.currentUser.value, id, text)]
      && OnlyKeyChanged(s.messages, r.state.messages, id, MessagesOf(s.messages, id) + [SentMessage(text, newId, time)])
      && |r.state.contacts| == |s.contacts|
      && (forall i :: 0 <= i < |s.contacts| && s.contacts[i].id == id ==>
            r.state.contacts[i] == s.contacts[i].(lastMessage := text, timestamp := "now"))
      && (forall i :: 0 <= i < |s.contacts| && s.contacts[i].id != id ==> r.state.contacts[i] == s.contacts[i])
      && r.state == s.(messages := r.state.messages, contacts := r.state.contacts)
  {
    if !CanSend(s) then Step(s, [])
    else
      var id := s.activeContactId.value;
      var next := s.(messages := AppendMessage(s.messages, id, SentMessage(text, newId, time)),
                     contacts := EditWhere(s.contacts, id, Preview(text)));
      Step(next, [EmitMessage(s.currentUser.value, id, text)])
  }

  /** The message the `receiveMessage` listener appends. */
  function ReceivedMessage(text: string, newId: string, time: string): Message {
    Message(newId, text, time, false, None, None)
  }

  /**
    The `receiveMessage` listener: an unknown sender becomes a new contact,
    and the message is appended to the sender's conversation. A known
    sender's contact is left as it is.
   */
  function ReceiveMessage(s: AppState, sender: string, text: string, newId: string, time: string): (r: AppState)
    ensures (exists j :: 0 <= j < |s.contacts| && s.contacts[j].id == sender) ==> r.contacts == s.contacts
    ensures (forall j :: 0 <= j < |s.contacts| ==> s.contacts[j].id != sender) ==>
      r.contacts == s.contacts + [NewContact(sender, sender, text)]
    ensures OnlyKeyChanged(s.messages, r.messages, sender, MessagesOf(s.messages, sender) + [ReceivedMessage(text, newId, time)])
    ensures r == s.(contacts := r.contacts, messages := r.messages)
  {
    var contacts := if Find(s.contacts, ById(sender)).None? then s.contacts + [NewContact(sender, sender, text)] else s.contacts;
    s.(contacts := contacts, messages := AppendMessage(s.messages, sender, ReceivedMessage(text, newId, time)))
  }

  /** `activeContact`: the first contact whose id is the active one. */
  function ActiveContact(s: AppState): (r: Option<Contact>)
    ensures r.Some? ==> r.value in s.contacts && s.activeContactId == Some(r.value.id)
    ensures r.Some? ==>
      exists j :: 0 <= j < |s.contacts| && r.value == s.contacts[j]
        && forall i :: 0 <= i < j ==> s.contacts[i].id != s.activeContactId.value
    ensures r.None? <==> s.activeContactId.None? || forall j :: 0 <= j < |s.contacts| ==> s.contacts[j].id != s.activeContactId.value
  {
    match s.activeContactId
    case None => None
    case Some(id) => Find(s.contacts, ById(id))
  }

  /** `currentMessages`: the active conversation, empty when no contact is active. */
  function CurrentMessages(s: AppState): (r: seq<Message>)
    ensures Present(s.activeContactId) && s.activeContactId.value in s.messages ==> r == s.messages[s.activeContactId.value]
    ensures !Present(s.activeContactId) || s.activeContactId.value !in s.messages ==> r == []
  {
    if Present(s.activeContactId) then MessagesOf(s.messages, s.activeContactId.value) else []
  }
}
