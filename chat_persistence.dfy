/**
 * `ChatPersistenceManager`: the durable store behind the chat histories. The storage directory
 * is a map from file name to what a JSON read of that file gives; a chat `c` lives in the file
 * `c + ".json"` as the record `{"last_updated": .., "messages": [..]}`.
 */
module ChatPersistence {
  import opened Wrappers
  import opened Strings
  import opened Messages

  const Ext := ".json"

  /** What reading a file of the directory gives */
  datatype StoredFile =
    | Record(lastUpdated: string, messages: Option<seq<Message>>)  // a JSON object; `messages` when it has that key
    | Unreadable                                                    // the read or the JSON parse fails

  /** How the write of a validated history ends */
  datatype WriteOutcome =
    | Written    // `open` and `json.dump` succeed
    | OpenFails  // `open(.., "w")` raises: the old file, if any, is untouched
    | DumpFails  // `json.dump` raises after `open` truncated the file

  type Store = map<string, StoredFile>

  function FileName(chat: string): string {
    chat + Ext
  }

  /** Two chats never share a file */
  lemma FileNameInjective(a: string, b: string)
    requires FileName(a) == FileName(b)
    ensures a == b
  {
    assert a == FileName(a)[..|a|] && b == FileName(b)[..|b|];
  }

  /** The validation of `save_chat_history`: a dictionary with the keys `sender` and `message` */
  predicate Storable(m: Message) {
    m.Dict? && "sender" in m.fields && "message" in m.fields
  }

  predicate AllStorable(ms: seq<Message>) {
    forall i :: 0 <= i < |ms| ==> Storable(ms[i])
  }

  /** The directory after `save_chat_history(chat, ms)` at time `now` */
  function Saved(store: Store, chat: string, ms: seq<Message>, now: string, outcome: WriteOutcome): Store
  {
    if !AllStorable(ms) then store
    else match outcome
      case Written => store[FileName(chat) := Record(now, Some(ms))]
      case OpenFails => store
      case DumpFails => store[FileName(chat) := Unreadable]
  }

  /** What `save_chat_history` returns */
  function SaveSucceeds(ms: seq<Message>, outcome: WriteOutcome): bool {
    AllStorable(ms) && outcome == Written
  }

  /** `load_chat_history(chat)`: the stored messages; `[]` for a missing, unreadable or message-less file */
  function Load(store: Store, chat: string): seq<Message> {
    if FileName(chat) !in store then []
    else match store[FileName(chat)]
      case Unreadable => []
      case Record(_, messages) => messages.GetOr([])
  }

  /** `list_available_chats`: the names of the `.json` files with the suffix cut off */
  function ChatNames(store: Store): set<string> {
    set k | k in store && EndsWith(k, Ext) :: k[..|k| - |Ext|]
  }

  /** The files `delete_chat_history()` leaves: every one whose name does not end in `.json` */
  function NonJson(store: Store): Store {
    map k | k in store && !EndsWith(k, Ext) :: store[k]
  }

  /** The directory after `delete_chat_history(chat)`; a missing or empty name deletes every chat */
  function Deleted(store: Store, chat: Option<string>): Store {
    if chat.None? || chat.value == "" then NonJson(store)
    else store - {FileName(chat.value)}
  }

  /** Round trip: after a successful save, loading the same chat gives back the messages saved */
  lemma LoadAfterSave(store: Store, chat: string, ms: seq<Message>, now: string, outcome: WriteOutcome)
    requires SaveSucceeds(ms, outcome)
    ensures Load(Saved(store, chat, ms, now, outcome), chat) == ms
    ensures Saved(store, chat, ms, now, outcome)[FileName(chat)] == Record(now, Some(ms))
  {
  }

  /** A save with an invalid message writes nothing and reports failure */
  lemma InvalidSaveWritesNothing(store: Store, chat: string, ms: seq<Message>, now: string, outcome: WriteOutcome)
    requires exists i :: 0 <= i < |ms| && !Storable(ms[i])
    ensures Saved(store, chat, ms, now, outcome) == store && !SaveSucceeds(ms, outcome)
  {
  }

  /** Only `sender` and `message` are checked: a message without `date` or `time` is saved */
  lemma DateAndTimeUnchecked(sender: string, text: string)
    ensures Storable(Dict(map["sender" := sender, "message" := text]))
  {
  }

  /** A save touches only its own chat's file */
  lemma SaveFrame(store: Store, chat: string, ms: seq<Message>, now: string, outcome: WriteOutcome, k: string)
    requires k != FileName(chat)
    ensures k in Saved(store, chat, ms, now, outcome) <==> k in store
    ensures k in store ==> Saved(store, chat, ms, now, outcome)[k] == store[k]
  {
  }

  /** Saving one chat does not change what the others load */
  lemma SaveKeepsOtherChats(store: Store, chat: string, ms: seq<Message>, now: string, outcome: WriteOutcome, other: string)
    requires other != chat
    ensures Load(Saved(store, chat, ms, now, outcome), other) == Load(store, other)
  {
    if FileName(other) == FileName(chat) {
      FileNameInjective(other, chat);
    }
    SaveFrame(store, chat, ms, now, outcome, FileName(other));
  }

  /** A write that fails after truncating the file leaves a chat that loads as empty */
  lemma FailedDumpLoadsEmpty(store: Store, chat: string, ms: seq<Message>, now: string)
    requires AllStorable(ms)
    ensures Load(Saved(store, chat, ms, now, DumpFails), chat) == []
  {
  }

  /** Missing files, unreadable files and records without `messages` all load as `[]` */
  lemma LoadFallbacks(store: Store, chat: string)
    ensures FileName(chat) !in store ==> Load(store, chat) == []
    ensures FileName(chat) in store && store[FileName(chat)].Unreadable? ==> Load(store, chat) == []
    ensures FileName(chat) in store && store[FileName(chat)].Record? && store[FileName(chat)].messages.None?
      ==> Load(store, chat) == []
  {
  }

  /** The listed chats are exactly those with a file: the suffix is cut and put back without loss */
  lemma ChatNamesIff(store: Store, chat: string)
    ensures chat in ChatNames(store) <==> FileName(chat) in store
  {
    if chat in ChatNames(store) {
      var k :| k in store && EndsWith(k, Ext) && k[..|k| - |Ext|] == chat;
      assert k == k[..|k| - |Ext|] + k[|k| - |Ext|..];
    }
    if FileName(chat) in store {
      var k := FileName(chat);
      assert EndsWith(k, Ext) && k[..|k| - |Ext|] == chat;
    }
  }

  /** Deleting one chat removes its file and nothing else; deleting a chat without a file changes nothing */
  lemma DeleteOne(store: Store, chat: string, k: string)
    requires chat != ""
    ensures FileName(chat) !in Deleted(store, Some(chat))
    ensures k != FileName(chat) ==> (k in Deleted(store, Some(chat)) <==> k in store)
    ensures k != FileName(chat) && k in store ==> Deleted(store, Some(chat))[k] == store[k]
    ensures FileName(chat) !in store ==> Deleted(store, Some(chat)) == store
  {
  }

  /** Deleting every chat removes exactly the `.json` files: nothing is left to list, other files stay */
  lemma DeleteAll(store: Store, k: string)
    ensures ChatNames(Deleted(store, None)) == {}
    ensures !EndsWith(k, Ext) ==> (k in Deleted(store, None) <==> k in store)
    ensures !EndsWith(k, Ext) && k in store ==> Deleted(store, None)[k] == store[k]
    ensures EndsWith(k, Ext) ==> k !in Deleted(store, None)
  {
  }

  /** The empty name is falsy: it deletes every chat as well */
  lemma DeleteEmptyNameIsDeleteAll(store: Store)
    ensures Deleted(store, Some("")) == Deleted(store, None)
  {
  }

  /** The storage directory and the operations of the manager on it */
  class ChatPersistenceManager {
    var files: Store

    constructor(initial: Store)
      ensures files == initial
    {
      files := initial;
    }

    /** `save_chat_history`: validate every message, then write the record */
    method SaveChatHistory(chatName: string, messages: seq<Message>, now: string, outcome: WriteOutcome)
      returns (ok: bool)
      modifies this
      ensures files == Saved(old(files), chatName, messages, now, outcome)
      ensures ok == SaveSucceeds(messages, outcome)
    {
      for i := 0 to |messages|
        invariant forall j :: 0 <= j < i ==> Storable(messages[j])
      {
        var msg := messages[i];
        if !msg.Dict? || "sender" !in msg.fields || "message" !in msg.fields {
          return false;
        }
      }
      match outcome
      case Written =>
        files := files[FileName(chatName) := Record(now, Some(messages))];
        ok := true;
      case OpenFails =>
        ok := false;
      case DumpFails =>
        files := files[FileName(chatName) := Unreadable];
        ok := false;
    }

    function LoadChatHistory(chatName: string): seq<Message>
      reads this
    {
      Load(files, chatName)
    }

    /** `delete_chat_history`: one chat's file, or (for a missing or empty name) every `.json` file */
    method DeleteChatHistory(chatName: Option<string>)
      modifies this
      ensures files == Deleted(old(files), chatName)
    {
      if chatName.Some? && chatName.value != "" {
        var path := FileName(chatName.value);
        if path in files {
          files := files - {path};
        }
      } else {
        var pending := set k | k in files && EndsWith(k, Ext);
        ghost var kept := NonJson(files);
        while pending != {}
          invariant pending <= files.Keys
          invariant forall k :: k in files ==> (k in pending || k in kept) && (k in kept ==> files[k] == kept[k])
          invariant forall k :: k in kept ==> k in files && k !in pending
          decreases pending
        {
          var k :| k in pending;
          files := files - {k};
          pending := pending - {k};
        }
        assert files == kept;
      }
    }

    function ListAvailableChats(): set<string>
      reads this
    {
      ChatNames(files)
    }
  }
}
