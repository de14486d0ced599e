/**
  `App` as a state machine: every user action, backend answer and socket
  event is an `Event`, and the handlers of module `Chat` are its transitions.
  The lemmas relate handlers to each other and to the derived views.
 */
module ChatMachine {
  import opened Wrappers
  import opened ChatTypes
  import opened Chat

  /** Everything that can reach `App` from the user, the window, the backend or the socket. */
  datatype Event =
    | LoggedIn(username: string)
    | ContactsArrived(contacts: Fetched<seq<Contact>>)
    | Selected(contactId: string)
    | HistoryArrived(user: string, contactId: string, records: Fetched<seq<HistoryRecord>>)
    | NewChat(username: string, newId: string)
    | Back
    | Sent(text: string, newId: string, time: string)
    | Received(sender: string, text: string, newId: string, time: string)
    | Resized(width: int)

  /** The chat pane is shown only while some contact id is active; that id need not name a listed contact. */
  predicate ViewInvariant(s: AppState) {
    s.mobileView == ChatView ==> s.activeContactId.Some?
  }

  /**
    One event, handled. No event removes a conversation, and none shows the
    chat pane without an active contact id.
   */
  function Apply(s: AppState, e: Event): (r: Step)
    ensures s.messages.Keys <= r.state.messages.Keys
    ensures ViewInvariant(s) ==> ViewInvariant(r.state)
  {
    match e
    case LoggedIn(username) => Login(s, username)
    case ContactsArrived(result) => Step(ContactsFetched(s, result), [])
    case Selected(contactId) => SelectContact(s, contactId)
    case HistoryArrived(user, contactId, result) => Step(HistoryLoaded(s, user, contactId, result), [])
    case NewChat(username, newId) => StartNewChat(s, username, newId)
    case Back => Step(BackToSidebar(s), [])
    case Sent(text, newId, time) => SendMessage(s, text, newId, time)
    case Received(sender, text, newId, time) => Step(ReceiveMessage(s, sender, text, newId, time), [])
    case Resized(width) => Step(Resize(s, width), [])
  }

  /** A sequence of events, handled in order; the requests of all of them, in order. */
  function Run(s: AppState, es: seq<Event>): (r: Step)
    ensures s.messages.Keys <= r.state.messages.Keys
    ensures ViewInvariant(s) ==> ViewInvariant(r.state)
    decreases |es|
  {
    if |es| == 0 then Step(s, [])
    else
      var first := Apply(s, es[0]);
      var rest := Run(first.state, es[1..]);
      Step(rest.state, first.effects + rest.effects)
  }

  /** From the initial state, the chat pane never shows without an active contact. */
  lemma ReachableViewInvariant(es: seq<Event>)
    ensures ViewInvariant(Run(Initial(), es).state)
  {
  }

  /** Before any event, no contact is active and no message is visible. */
  lemma InitialShowsNothing()
    ensures ActiveContact(Initial()).None? && CurrentMessages(Initial()) == []
    ensures ViewInvariant(Initial())
  {
  }

  /** Selecting the same contact again changes no state (it only asks for the history again). */
  lemma SelectContactIdempotent(s: AppState, contactId: string)
    ensures SelectContact(SelectContact(s, contactId).state, contactId).state == SelectContact(s, contactId).state
  {
    var once := SelectContact(s, contactId).state;
    var twice := SelectContact(once, contactId).state;
    assert twice.contacts == once.contacts;
  }

  /** After selecting `contactId`, the chat pane shows that contact's conversation. */
  lemma SelectShowsConversation(s: AppState, contactId: string)
    requires contactId != ""
    ensures CurrentMessages(SelectContact(s, contactId).state) == MessagesOf(s.messages, contactId)
  {
  }

  /** A sent message shows up at the end of the conversation on screen. */
  lemma SendShowsInCurrentMessages(s: AppState, text: string, newId: string, time: string)
    requires CanSend(s)
    ensures CurrentMessages(SendMessage(s, text, newId, time).state)
      == CurrentMessages(s) + [SentMessage(text, newId, time)]
  {
  }

  /** A message from the contact on screen shows up at the end of the conversation on screen. */
  lemma ReceiveShowsInCurrentMessages(s: AppState, sender: string, text: string, newId: string, time: string)
    requires s.activeContactId == Some(sender) && sender != ""
    ensures CurrentMessages(ReceiveMessage(s, sender, text, newId, time))
      == CurrentMessages(s) + [ReceivedMessage(text, newId, time)]
  {
  }

  /**
    There is no deduplication: the same socket event delivered twice leaves
    two copies of the message, and at most one new contact.
   */
  lemma ReceiveTwiceAppendsTwice(s: AppState, sender: string, text: string, newId: string, time: string)
    ensures var once := ReceiveMessage(s, sender, text, newId, time);
      var twice := ReceiveMessage(once, sender, text, newId, time);
      && MessagesOf(twice.messages, sender) == MessagesOf(s.messages, sender) + [ReceivedMessage(text, newId, time), ReceivedMessage(text, newId, time)]
      && twice.contacts == once.contacts
      && |twice.contacts| <= |s.contacts| + 1
  {
    var once := ReceiveMessage(s, sender, text, newId, time);
    if forall j :: 0 <= j < |s.contacts| ==> s.contacts[j].id != sender {
      assert once.contacts[|s.contacts|].id == sender;
    }
    assert exists j :: 0 <= j < |once.contacts| && once.contacts[j].id == sender;
  }

  /** `findIndex` answers with the first matching position, whichever it is. */
  lemma FindIndexIsFirst(cs: seq<Contact>, k: Key, j: int)
    requires 0 <= j < |cs| && Matches(cs[j], k)
    requires forall i :: 0 <= i < j ==> !Matches(cs[i], k)
    ensures FindIndex(cs, k) == Some(j)
  {
    var r := FindIndex(cs, k);
    if r.None? || r.value < j || r.value > j {
      assert false;
    }
  }

  /** Starting a chat with a name that is already a contact's, ignoring case, is selecting that contact. */
  lemma StartNewChatWithKnownName(s: AppState, username: string, newId: string, j: int)
    requires 0 <= j < |s.contacts| && Matches(s.contacts[j], ByName(username))
    requires forall i :: 0 <= i < j ==> !Matches(s.contacts[i], ByName(username))
    ensures StartNewChat(s, username, newId) == SelectContact(s, s.contacts[j].id)
  {
    FindIndexIsFirst(s.contacts, ByName(username), j);
  }

  /**
    Starting a chat with a name no contact carries appends the new contact,
    gives it an empty conversation, and then is exactly selecting it.
   */
  lemma StartNewChatWithNewName(s: AppState, username: string, newId: string)
    requires forall j :: 0 <= j < |s.contacts| ==> !Matches(s.contacts[j], ByName(username))
    ensures StartNewChat(s, username, newId)
      == SelectContact(s.(contacts := s.contacts + [NewContact(newId, username, StartedPreview)],
                          messages := s.messages[newId := []]), newId)
  {
    assert Find(s.contacts, ByName(username)).None?;
  }

  /** After starting a chat with `username`, some contact carries that name, ignoring case. */
  lemma StartNewChatNameFindable(s: AppState, username: string, newId: string)
    ensures var after := StartNewChat(s, username, newId).state;
      exists j :: 0 <= j < |after.contacts| && Matches(after.contacts[j], ByName(username))
  {
    var after := StartNewChat(s, username, newId).state;
    if forall j :: 0 <= j < |s.contacts| ==> !Matches(s.contacts[j], ByName(username)) {
      assert Matches(after.contacts[|s.contacts|], ByName(username));
    } else {
      var j :| 0 <= j < |s.contacts| && Matches(s.contacts[j], ByName(username));
      assert after.contacts[j].name == s.contacts[j].name;
      assert Matches(after.contacts[j], ByName(username));
    }
  }

  /**
    Starting a chat twice with the same name creates at most one contact: the
    contact the first call creates carries that name, so the second call
    finds it.
   */
  lemma StartNewChatTwiceAddsAtMostOne(s: AppState, username: string, id1: string, id2: string)
    ensures var once := StartNewChat(s, username, id1).state;
      |StartNewChat(once, username, id2).state.contacts| <= |s.contacts| + 1
  {
    StartNewChatNameFindable(s, username, id1);
  }

  /** Loading the same history answer twice is the same as loading it once. */
  lemma HistoryLoadedIdempotent(s: AppState, user: string, contactId: string, result: Fetched<seq<HistoryRecord>>)
    ensures var once := HistoryLoaded(s, user, contactId, result);
      HistoryLoaded(once, user, contactId, result) == once
  {
    var once := HistoryLoaded(s, user, contactId, result);
    var twice := HistoryLoaded(once, user, contactId, result);
    if result.Loaded? {
      assert twice.messages == once.messages;
    }
  }

  /** Only the last resize counts, and resizing keeps every contact, message and the pane shown. */
  lemma ResizeLastWins(s: AppState, w1: int, w2: int)
    ensures Resize(Resize(s, w1), w2) == Resize(s, w2)
    ensures Resize(s, w1).contacts == s.contacts && Resize(s, w1).messages == s.messages
    ensures Resize(s, w1).mobileView == s.mobileView
  {
  }

  /** Logging in again as the user already logged in starts no new requests. */
  lemma LoginTwiceRequestsOnce(s: AppState, username: string)
    ensures Login(Login(s, username).state, username).effects == []
  {
  }

  /** Sending and receiving only extend conversations: every earlier message stays where it was. */
  lemma MessagesOnlyGrow(s: AppState, e: Event)
    requires e.Sent? || e.Received?
    ensures forall k :: k in s.messages ==> s.messages[k] <= Apply(s, e).state.messages[k]
  {
  }

  /** Only the last contacts answer counts: a later answer, or a failure, overrides an earlier one. */
  lemma ContactsLastAnswerWins(s: AppState, first: Fetched<seq<Contact>>, second: Fetched<seq<Contact>>)
    ensures ContactsFetched(ContactsFetched(s, first), second) == ContactsFetched(s, second)
  {
  }

  /**
    After selecting a listed contact, the active contact is the first contact
    with that id, now with unread count 0.
   */
  lemma SelectMakesContactActive(s: AppState, contactId: string, j: int)
    requires 0 <= j < |s.contacts| && s.contacts[j].id == contactId
    requires forall i :: 0 <= i < j ==> s.contacts[i].id != contactId
    ensures ActiveContact(SelectContact(s, contactId).state) == Some(s.contacts[j].(unreadCount := Some(0)))
  {
    var after := SelectContact(s, contactId).state;
    assert Matches(after.contacts[j], ById(contactId));
    FindIndexIsFirst(after.contacts, ById(contactId), j);
  }

  /** Lower-casing twice is lower-casing once. */
  lemma {:induction false} LowerIdempotent(s: string)
    ensures Lower(Lower(s)) == Lower(s)
  {
    forall i | 0 <= i < |s|
      ensures Lower(Lower(s))[i] == Lower(s)[i]
    {
      var c := s[i];
      assert Lower(s)[i] == LowerChar(c);
    }
  }

  /** The lookup of `handleStartNewChat` ignores case: a lower-cased username finds the same contacts. */
  lemma ByNameIgnoresCase(c: Contact, username: string)
    ensures Matches(c, ByName(Lower(username))) <==> Matches(c, ByName(username))
  {
    LowerIdempotent(username);
  }
}
