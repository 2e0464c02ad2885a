/**
 * `ChatManager`: the in-memory chat histories, a map from chat name to message list, kept to
 * the newest `max_history` entries and written through to an optional durable store.
 */
module ChatManagement {
  import opened Wrappers
  import opened Slices
  import opened Messages
  import opened ChatPersistence

  /** The default of `chat.max_history` */
  const DefaultMaxHistory := 20

  /** The `messages` argument of `add_messages`: a list, or a single value to be wrapped in one */
  datatype Batch = Many(items: seq<Message>) | One(item: Message)

  function Items(b: Batch): (r: seq<Message>)
    ensures b.One? ==> r == [b.item]
    ensures b.Many? ==> r == b.items
  {
    match b
    case Many(ms) => ms
    case One(m) => [m]
  }

  /** `if len(ms) > m: ms = ms[-m:]` */
  function Truncate(ms: seq<Message>, m: int): seq<Message> {
    if |ms| > m then SliceFrom(ms, -m) else ms
  }

  /** With `m >= 1` the newest `min(m, |ms|)` entries are kept, in order */
  lemma TruncateKeepsNewest(ms: seq<Message>, m: int)
    requires m >= 1
    ensures |Truncate(ms, m)| == Min(m, |ms|) <= m
    ensures Truncate(ms, m) == ms[|ms| - Min(m, |ms|)..]
  {
    SliceLast(ms, m);
  }

  /** `ms[-0:]` is the whole list: a limit of zero truncates nothing */
  lemma TruncateZeroKeepsAll(ms: seq<Message>)
    ensures Truncate(ms, 0) == ms
  {
    SliceMinusZero(ms);
  }

  /** Truncating a second time changes nothing */
  lemma TruncateIdempotent(ms: seq<Message>, m: int)
    requires m >= 0
    ensures Truncate(Truncate(ms, m), m) == Truncate(ms, m)
  {
    if m >= 1 {
      TruncateKeepsNewest(ms, m);
      TruncateKeepsNewest(Truncate(ms, m), m);
    } else {
      TruncateZeroKeepsAll(ms);
    }
  }

  /** A list that already fits is left as it is */
  lemma TruncateShort(ms: seq<Message>, m: int)
    requires |ms| <= m
    ensures Truncate(ms, m) == ms
  {
  }

  /** The history of `chat` in `h`, `[]` when it has none */
  function HistoryOf(h: map<string, seq<Message>>, chat: string): seq<Message> {
    if chat in h then h[chat] else []
  }

  /** The history of `chat` after `add_messages(chat, b)` with the limit `m` */
  function Appended(h: map<string, seq<Message>>, chat: string, b: Batch, m: int): seq<Message> {
    Truncate(HistoryOf(h, chat) + Items(b), m)
  }

  /**
   * After `add_messages` the chat holds the newest `min(m, |old| + |new|)` entries of its old
   * history followed by the new messages, so never more than `m`; a chat without history
   * starts from `[]`.
   */
  lemma AppendedKeepsNewest(h: map<string, seq<Message>>, chat: string, b: Batch, m: int)
    requires m >= 1
    ensures var all := HistoryOf(h, chat) + Items(b);
      && |Appended(h, chat, b, m)| == Min(m, |all|) <= m
      && Appended(h, chat, b, m) == all[|all| - Min(m, |all|)..]
    ensures chat !in h ==> Appended(h, chat, b, m) == Truncate(Items(b), m)
  {
    TruncateKeepsNewest(HistoryOf(h, chat) + Items(b), m);
    if chat !in h {
      assert HistoryOf(h, chat) + Items(b) == Items(b);
    }
  }

  /** The last message added is the newest entry of the history */
  lemma AppendedEndsWithLast(h: map<string, seq<Message>>, chat: string, b: Batch, m: int)
    requires m >= 1 && Items(b) != []
    ensures Appended(h, chat, b, m) != []
    ensures Appended(h, chat, b, m)[|Appended(h, chat, b, m)| - 1] == Items(b)[|Items(b)| - 1]
  {
    AppendedKeepsNewest(h, chat, b, m);
  }

  /** The histories the constructor loads: every listed chat, truncated */
  function Loaded(files: Store, m: int): map<string, seq<Message>> {
    map c | c in ChatNames(files) :: Truncate(Load(files, c), m)
  }

  /** Restarting after a successful write reloads exactly the history that was written */
  lemma ReloadAfterSave(files: Store, chat: string, h: seq<Message>, now: string, m: int)
    requires |h| <= m && AllStorable(h)
    ensures chat in Loaded(Saved(files, chat, h, now, Written), m)
    ensures Loaded(Saved(files, chat, h, now, Written), m)[chat] == h
  {
    var after := Saved(files, chat, h, now, Written);
    LoadAfterSave(files, chat, h, now, Written);
    ChatNamesIff(after, chat);
  }

  /** A save lists no chat except the one saved and those listed before */
  lemma SavedNames(files: Store, chat: string, ms: seq<Message>, now: string, outcome: WriteOutcome)
    ensures ChatNames(Saved(files, chat, ms, now, outcome)) <= ChatNames(files) + {chat}
  {
    forall n | n in ChatNames(Saved(files, chat, ms, now, outcome)) ensures n in ChatNames(files) + {chat} {
      ChatNamesIff(Saved(files, chat, ms, now, outcome), n);
      if n != chat {
        SaveKeepsFile(files, chat, ms, now, outcome, n);
        ChatNamesIff(files, n);
      }
    }
  }

  lemma SaveKeepsFile(files: Store, chat: string, ms: seq<Message>, now: string, outcome: WriteOutcome, n: string)
    requires n != chat && FileName(n) in Saved(files, chat, ms, now, outcome)
    ensures FileName(n) in files
  {
    if FileName(n) == FileName(chat) {
      FileNameInjective(n, chat);
    }
  }

  /** A deletion lists no chat that was not listed before */
  lemma DeletedNames(files: Store, chat: Option<string>)
    ensures ChatNames(Deleted(files, chat)) <= ChatNames(files)
  {
    forall n | n in ChatNames(Deleted(files, chat)) ensures n in ChatNames(files) {
      ChatNamesIff(Deleted(files, chat), n);
      ChatNamesIff(files, n);
    }
  }

  /** Every history holds at most `m` messages */
  ghost predicate Bounded(h: map<string, seq<Message>>, m: int) {
    forall c :: c in h ==> |h[c]| <= m
  }

  /** Storing a list within the limit keeps every history within it */
  lemma BoundedUpdate(h: map<string, seq<Message>>, m: int, chat: string, ms: seq<Message>)
    requires Bounded(h, m) && |ms| <= m
    ensures Bounded(h[chat := ms], m)
  {
  }

  /** After a save the listed chats are still all in memory, the saved one being there too */
  lemma CoveredAfterSave(files: Store, h: map<string, seq<Message>>, chat: string, ms: seq<Message>, now: string, outcome: WriteOutcome)
    requires ChatNames(files) <= h.Keys
    ensures ChatNames(Saved(files, chat, ms, now, outcome)) <= h[chat := ms].Keys
  {
    SavedNames(files, chat, ms, now, outcome);
  }

  class ChatManager {
    const maxHistory: int
    var chatHistory: map<string, seq<Message>>
    const store: ChatPersistenceManager?

    /**
     * The bounds the manager keeps when it is the only writer of its store: a positive limit,
     * every history within it, and every chat of the store loaded in memory (so a lazy load
     * never brings in an untruncated list).
     */
    ghost predicate Valid()
      reads this, store
    {
      && maxHistory >= 1
      && Bounded(chatHistory, maxHistory)
      && (store != null ==> ChatNames(store.files) <= chatHistory.Keys)
    }

    /** `__init__` together with `_load_existing_chats` */
    constructor(maxHistory: int, store: ChatPersistenceManager?)
      ensures this.maxHistory == maxHistory && this.store == store
      ensures store == null ==> chatHistory == map[]
      ensures store != null ==> chatHistory == Loaded(store.files, maxHistory)
      ensures maxHistory >= 1 ==> Valid()
    {
      this.maxHistory := maxHistory;
      this.store := store;
      chatHistory := map[];
      new;
      if store != null {
        var available := store.ListAvailableChats();
        var pending := available;
        while pending != {}
          invariant pending <= available
          invariant chatHistory == map c | c in available - pending :: Truncate(Load(store.files, c), maxHistory)
          decreases pending
        {
          var chatName :| chatName in pending;
          var messages := store.LoadChatHistory(chatName);
          if |messages| > maxHistory {
            messages := SliceFrom(messages, -maxHistory);
          }
          chatHistory := chatHistory[chatName := messages];
          pending := pending - {chatName};
        }
        assert available - pending == available;
        if maxHistory >= 1 {
          forall c | c in chatHistory ensures |chatHistory[c]| <= maxHistory {
            TruncateKeepsNewest(Load(store.files, c), maxHistory);
          }
        }
      }
    }

    /** `add_messages`: append, keep the newest `max_history`, write the chat through to the store */
    method AddMessages(chatName: string, batch: Batch, now: string, outcome: WriteOutcome)
      modifies this, store
      ensures chatHistory == old(chatHistory)[chatName := Appended(old(chatHistory), chatName, batch, maxHistory)]
      ensures store != null ==> store.files == Saved(old(store.files), chatName, chatHistory[chatName], now, outcome)
      ensures old(Valid()) ==> Valid()
    {
      var messages := match batch case Many(ms) => ms case One(m) => [m];
      var updated := (if chatName in chatHistory then chatHistory[chatName] else []) + messages;
      if |updated| > maxHistory {
        updated := SliceFrom(updated, -maxHistory);
      }
      assert messages == Items(batch);
      assert updated == Appended(chatHistory, chatName, batch, maxHistory);
      ghost var valid := Valid();
      ghost var files := if store != null then store.files else map[];
      chatHistory := chatHistory[chatName := updated];
      if store != null {
        var saved := store.SaveChatHistory(chatName, updated, now, outcome);
      }
      if valid {
        AppendedKeepsNewest(old(chatHistory), chatName, batch, maxHistory);
        BoundedUpdate(old(chatHistory), maxHistory, chatName, updated);
        if store != null {
          CoveredAfterSave(files, old(chatHistory), chatName, updated, now, outcome);
        }
      }
    }

    /** `get_chat_history`: the history in memory, or else the stored one, cached when non-empty */
    method GetChatHistory(chatName: string) returns (messages: seq<Message>)
      modifies this
      ensures chatName in old(chatHistory) ==> messages == old(chatHistory)[chatName] && chatHistory == old(chatHistory)
      ensures chatName !in old(chatHistory) && store == null ==> messages == [] && chatHistory == old(chatHistory)
      ensures chatName !in old(chatHistory) && store != null ==>
        && messages == Load(store.files, chatName)
        && chatHistory == (if messages == [] then old(chatHistory) else old(chatHistory)[chatName := messages])
      ensures old(Valid()) ==> Valid()
    {
      if chatName !in chatHistory && store != null {
        var loaded := store.LoadChatHistory(chatName);
        if loaded != [] {
          chatHistory := chatHistory[chatName := loaded];
        }
      }
      messages := if chatName in chatHistory then chatHistory[chatName] else [];
      if old(Valid()) && chatName !in old(chatHistory) && store != null {
        ChatNamesIff(store.files, chatName);
      }
    }

    /** `clear_chat_history`: empty one chat that is in memory, or (for a missing or empty name) all */
    method ClearChatHistory(chatName: Option<string>)
      modifies this, store
      ensures chatName.Some? && chatName.value != "" ==>
        && chatHistory == (if chatName.value in old(chatHistory) then old(chatHistory)[chatName.value := []] else old(chatHistory))
        && (store != null ==> store.files == (if chatName.value in old(chatHistory) then Deleted(old(store.files), chatName) else old(store.files)))
      ensures chatName.None? || chatName.value == "" ==>
        chatHistory == map[] && (store != null ==> store.files == Deleted(old(store.files), None))
      ensures old(Valid()) ==> Valid()
    {
      if chatName.Some? && chatName.value != "" {
        if chatName.value in chatHistory {
          chatHistory := chatHistory[chatName.value := []];
          if store != null {
            store.DeleteChatHistory(chatName);
            DeletedNames(old(store.files), chatName);
          }
        }
      } else {
        chatHistory := map[];
        if store != null {
          store.DeleteChatHistory(None);
          DeleteAll(old(store.files), "");
        }
      }
    }
  }
}
