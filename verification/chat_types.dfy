/**
  The state that `App` in src/App.tsx keeps with `useState`, the records it
  receives from the backend, and the side effects its handlers start.
 */
module ChatTypes {
  import opened Wrappers

  /**
    A conversation partner as the sidebar lists it. `unreadCount` is optional:
    contacts created in the app leave it out, selecting a contact sets it to 0.
   */
  datatype Contact = Contact(
    id: string,
    name: string,
    avatar: string,
    lastMessage: string,
    timestamp: string,
    isOnline: bool,
    unreadCount: Option<int>)

  /**
    One chat message. `timestamp` is already formatted for display;
    `isDelivered` and `isRead` are left out by some of the code paths that
    create messages.
   */
  datatype Message = Message(
    id: string,
    text: string,
    timestamp: string,
    isSent: bool,
    isDelivered: Option<bool>,
    isRead: Option<bool>)

  /**
    A message record as the history endpoint returns it: `_id`, `text`,
    `sender`, and its timestamp as `toLocaleTimeString` renders it.
   */
  datatype HistoryRecord = HistoryRecord(recordId: string, text: string, sender: string, time: string)

  /** Which pane the mobile layout shows. */
  datatype View = SidebarView | ChatView

  /** All the state hooks of `App`. */
  datatype AppState = AppState(
    currentUser: Option<string>,
    activeContactId: Option<string>,
    contacts: seq<Contact>,
    messages: map<string, seq<Message>>,
    mobileView: View,
    isMobile: bool)

  /** A request to the backend that a handler starts; its answer comes back later as an event. */
  datatype Effect =
    | FetchContacts(user: string)
    | JoinRoom(user: string)
    | FetchHistory(user: string, contactId: string)
    | EmitMessage(sender: string, receiver: string, text: string)

  /** The outcome of a handler: the next state and the requests it started, in order. */
  datatype Step = Step(state: AppState, effects: seq<Effect>)

  /** The settled result of an HTTP request. */
  datatype Fetched<T> = Loaded(data: T) | Failed

  /** The state before the first render: nobody logged in, desktop layout, sidebar shown. */
  function Initial(): (r: AppState)
    ensures !Present(r.currentUser) && !Present(r.activeContactId)
    ensures r.contacts == [] && r.messages == map[] && r.mobileView == SidebarView && !r.isMobile
  {
    AppState(None, None, [], map[], SidebarView, false)
  }

  /** JavaScript truthiness of an optional string: absent and empty are both false. */
  predicate Present(o: Option<string>) {
    o.Some? && o.value != ""
  }
}
