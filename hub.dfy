/**
 * The hub: the presence table (`clients`), the violation history, the
 * blocked-word file and everything the socket handlers and the word-management
 * form do to them. Every emit is appended to `outbox`, tagged with whether it
 * goes to every connected party or only to the requesting connection.
 */
module HubState {
  import opened Wrappers
  import opened Text
  import opened WordRegistry

  /** A row of the `clients` table; `client_id` is its key. */
  datatype ClientRow = ClientRow(status: string, sid: string, ip: string)

  /** What `get_all_statuses` reports per client: the connection id is not shown. */
  datatype ClientView = ClientView(status: string, ip: string)

  /** A row of the `history` table (its timestamp is not modelled). */
  datatype Violation = Violation(clientId: string, word: string)

  /** The blocked-word JSON file: absent, or present with or without its `blocked_words` key. */
  datatype WordFile = Missing | Json(blockedWords: Option<seq<string>>)

  datatype Target = Broadcast | Unicast(sid: string)
  datatype HubEvent =
    | StatusUpdate(statuses: map<string, ClientView>)
    | BlockedWordsUpdate(blockedWords: seq<string>)
  datatype Emit = Emit(to: Target, event: HubEvent)

  /** Payload of a `status` event; a field the agent left out is `None`. */
  datatype StatusReport = StatusReport(clientId: Option<string>, status: Option<string>)
  /** Payload of a `blocked_word` event. */
  datatype BlockedWordReport = BlockedWordReport(clientId: Option<string>, word: Option<string>)
  /** JSON body of a POST to `/update_status`. */
  datatype UpdateRequest = UpdateRequest(clientId: Option<string>, status: Option<string>)

  /** Reply of `/update_status`: 200 with the applied status, or 400. */
  datatype UpdateReply = StatusSet(clientId: string, status: string) | ClientIdRequired {
    function Code(): int {
      if StatusSet? then 200 else 400
    }
  }

  const DefaultStatus: string := "enabled"

  /** The words `read_blocked_words` returns for a file: none when it is absent or lacks the key. */
  function StoredWords(f: WordFile): seq<string> {
    match f
    case Missing => []
    case Json(ws) => ws.GetOr([])
  }

  /** The file after `read_blocked_words`: a missing file is created holding an empty list. */
  function AfterRead(f: WordFile): WordFile {
    if f.Missing? then Json(Some([])) else f
  }

  /** `INSERT OR REPLACE` keyed on `client_id`: the new row wins, other rows stay. */
  function Upserted(clients: map<string, ClientRow>, id: string, row: ClientRow): (m: map<string, ClientRow>)
    ensures m.Keys == clients.Keys + {id}
    ensures m[id] == row
    ensures forall k :: k in clients && k != id ==> m[k] == clients[k]
  {
    clients[id := row]
  }

  /** `DELETE FROM clients WHERE sid = ?`: exactly the rows of that connection go. */
  function WithoutSid(clients: map<string, ClientRow>, sid: string): (m: map<string, ClientRow>)
    ensures forall k :: k in m <==> k in clients && clients[k].sid != sid
    ensures forall k :: k in m ==> m[k] == clients[k]
  {
    map k | k in clients && clients[k].sid != sid :: clients[k]
  }

  /** `UPDATE clients SET status = ? WHERE client_id = ?`: never inserts, touches one field of one row. */
  function WithStatus(clients: map<string, ClientRow>, id: string, status: string): (m: map<string, ClientRow>)
    ensures m.Keys == clients.Keys
    ensures id in clients ==> m[id] == ClientRow(status, clients[id].sid, clients[id].ip)
    ensures forall k :: k in clients && k != id ==> m[k] == clients[k]
  {
    if id in clients then clients[id := clients[id].(status := status)] else clients
  }

  /** `get_all_statuses`: every row, without its connection id. */
  function Statuses(clients: map<string, ClientRow>): (s: map<string, ClientView>)
    ensures s.Keys == clients.Keys
    ensures forall k :: k in s ==> s[k].status == clients[k].status && s[k].ip == clients[k].ip
  {
    map k | k in clients :: ClientView(clients[k].status, clients[k].ip)
  }

  /** Upserting the same id twice keeps only the second row: last writer wins. */
  lemma UpsertLastWriterWins(clients: map<string, ClientRow>, id: string, first: ClientRow, second: ClientRow)
    ensures Upserted(Upserted(clients, id, first), id, second) == Upserted(clients, id, second)
  {
  }

  /**
   * An agent that reconnects on a new connection: its row disappears from the
   * snapshot on disconnect and reappears with the newly reported status.
   */
  lemma ReconnectDisappearsThenReappears(clients: map<string, ClientRow>, id: string, status: string, newSid: string, ip: string)
    requires id in clients
    ensures id !in Statuses(WithoutSid(clients, clients[id].sid))
    ensures var after := Statuses(Upserted(WithoutSid(clients, clients[id].sid), id, ClientRow(status, newSid, ip)));
      id in after && after[id] == ClientView(status, ip)
  {
  }

  /** Removing a connection's rows twice removes nothing more. */
  lemma WithoutSidIdempotent(clients: map<string, ClientRow>, sid: string)
    ensures WithoutSid(WithoutSid(clients, sid), sid) == WithoutSid(clients, sid)
  {
  }

  class Hub {
    var clients: map<string, ClientRow>
    var history: seq<Violation>
    var wordFile: WordFile
    var outbox: seq<Emit>

    /** A hub over the persisted tables and word file, with nothing emitted yet. */
    constructor (clients0: map<string, ClientRow>, history0: seq<Violation>, file0: WordFile)
      ensures clients == clients0 && history == history0 && wordFile == file0 && outbox == []
    {
      clients := clients0;
      history := history0;
      wordFile := file0;
      outbox := [];
    }

    /** The registry invariant on the stored word list: no two words equal once lower-cased. */
    ghost predicate WordsUnique()
      reads this
    {
      NoFoldedDuplicates(StoredWords(wordFile))
    }

    method SetClientStatus(id: string, status: string, sid: string, ip: string)
      modifies this
      ensures clients == Upserted(old(clients), id, ClientRow(status, sid, ip))
      ensures history == old(history) && wordFile == old(wordFile) && outbox == old(outbox)
    {
      clients := clients[id := ClientRow(status, sid, ip)];
    }

    method AddHistoryRecord(id: string, word: string)
      modifies this
      ensures history == old(history) + [Violation(id, word)]
      ensures clients == old(clients) && wordFile == old(wordFile) && outbox == old(outbox)
    {
      history := history + [Violation(id, word)];
    }

    method RemoveClientBySid(sid: string)
      modifies this
      ensures clients == WithoutSid(old(clients), sid)
      ensures (forall k :: k in old(clients) ==> old(clients)[k].sid != sid) ==> clients == old(clients)
      ensures history == old(history) && wordFile == old(wordFile) && outbox == old(outbox)
    {
      clients := map k | k in clients && clients[k].sid != sid :: clients[k];
    }

    /** POST `/update_status`: sets the status of an existing row; an empty or absent id is a 400 and changes nothing. */
    method UpdateStatus(req: UpdateRequest) returns (reply: UpdateReply)
      modifies this
      ensures req.clientId.None? || req.clientId.value == [] ==> reply == ClientIdRequired && reply.Code() == 400 && clients == old(clients)
      ensures req.clientId.Some? && req.clientId.value != [] ==>
        && reply == StatusSet(req.clientId.value, req.status.GetOr(DefaultStatus)) && reply.Code() == 200
        && clients == WithStatus(old(clients), req.clientId.value, req.status.GetOr(DefaultStatus))
      ensures history == old(history) && wordFile == old(wordFile) && outbox == old(outbox)
    {
      var newStatus := req.status.GetOr(DefaultStatus);
      if req.clientId.Some? && req.clientId.value != [] {
        var id := req.clientId.value;
        if id in clients {
          clients := clients[id := clients[id].(status := newStatus)];
        }
        reply := StatusSet(id, newStatus);
      } else {
        reply := ClientIdRequired;
      }
    }

    /** Socket `disconnect`: drop the connection's rows, then broadcast the snapshot. */
    method HandleDisconnect(sid: string)
      modifies this
      ensures clients == WithoutSid(old(clients), sid)
      ensures outbox == old(outbox) + [Emit(Broadcast, StatusUpdate(Statuses(clients)))]
      ensures history == old(history) && wordFile == old(wordFile)
    {
      RemoveClientBySid(sid);
      outbox := outbox + [Emit(Broadcast, StatusUpdate(Statuses(clients)))];
    }

    /** Socket `status`: upsert the reporter's row with this connection and address, then broadcast the snapshot. */
    method HandleStatus(sid: string, ip: string, report: StatusReport)
      modifies this
      ensures report.clientId.None? || report.status.None? ==>
        clients == old(clients) && outbox == old(outbox)
      ensures report.clientId.Some? && report.status.Some? ==>
        && clients == Upserted(old(clients), report.clientId.value, ClientRow(report.status.value, sid, ip))
        && outbox == old(outbox) + [Emit(Broadcast, StatusUpdate(Statuses(clients)))]
      ensures history == old(history) && wordFile == old(wordFile)
    {
      if report.clientId.Some? && report.status.Some? {
        SetClientStatus(report.clientId.value, report.status.value, sid, ip);
        outbox := outbox + [Emit(Broadcast, StatusUpdate(Statuses(clients)))];
      }
    }

    /** Socket `blocked_word`: record the violation, whether or not the client has a row; nothing is emitted. */
    method HandleBlockedWord(report: BlockedWordReport)
      modifies this
      ensures report.clientId.Some? && report.word.Some? ==>
        history == old(history) + [Violation(report.clientId.value, report.word.value)]
      ensures report.clientId.None? || report.word.None? ==> history == old(history)
      ensures clients == old(clients) && wordFile == old(wordFile) && outbox == old(outbox)
    {
      if report.clientId.Some? && report.word.Some? {
        AddHistoryRecord(report.clientId.value, report.word.value);
      }
    }

    /** `read_blocked_words`: the stored list, creating an empty file when there is none. */
    method ReadBlockedWords() returns (ws: seq<string>)
      modifies this
      ensures ws == StoredWords(old(wordFile))
      ensures old(wordFile).Missing? ==> ws == [] && wordFile == Json(Some([]))
      ensures !old(wordFile).Missing? ==> wordFile == old(wordFile)
      ensures StoredWords(wordFile) == ws
      ensures clients == old(clients) && history == old(history) && outbox == old(outbox)
    {
      if wordFile.Missing? {
        wordFile := Json(Some([]));
        ws := [];
      } else {
        ws := wordFile.blockedWords.GetOr([]);
      }
    }

    /** `write_blocked_words`: the file now holds exactly `ws`. */
    method WriteBlockedWords(ws: seq<string>)
      modifies this
      ensures wordFile == Json(Some(ws))
      ensures clients == old(clients) && history == old(history) && outbox == old(outbox)
    {
      wordFile := Json(Some(ws));
    }

    /** Socket `request_blocked_words`: reply to the requesting connection only. */
    method HandleBlockedWordsRequest(sid: string)
      modifies this
      ensures wordFile == AfterRead(old(wordFile))
      ensures outbox == old(outbox) + [Emit(Unicast(sid), BlockedWordsUpdate(StoredWords(old(wordFile))))]
      ensures clients == old(clients) && history == old(history)
    {
      var wordsList := ReadBlockedWords();
      outbox := outbox + [Emit(Unicast(sid), BlockedWordsUpdate(wordsList))];
    }

    /** The add branch on the list just read: append the trimmed word and write the file, if accepted. */
    method AddAction(wordsList: seq<string>, raw: string) returns (changed: bool)
      modifies this
      ensures var r := AddWord(wordsList, raw);
        changed == r.Written? && wordFile == (if changed then Json(Some(r.words)) else old(wordFile))
      ensures clients == old(clients) && history == old(history) && outbox == old(outbox)
    {
      changed := false;
      var newWord := Strip(raw);
      if newWord != [] && Lower(newWord) !in LowerAll(wordsList) {
        var appended := wordsList + [newWord];
        WriteBlockedWords(appended);
        changed := true;
      }
    }

    /** The delete branch: filter the word out and write the file, if it is present. */
    method DeleteAction(wordsList: seq<string>, wordToDelete: string) returns (changed: bool)
      modifies this
      ensures var r := DeleteWord(wordsList, wordToDelete);
        changed == r.Written? && wordFile == (if changed then Json(Some(r.words)) else old(wordFile))
      ensures clients == old(clients) && history == old(history) && outbox == old(outbox)
    {
      changed := false;
      if wordToDelete in wordsList {
        WriteBlockedWords(Removed(wordsList, wordToDelete));
        changed := true;
      }
    }

    /** The edit branch: build the renamed list entry by entry and write it, if the rename is accepted. */
    method EditAction(wordsList: seq<string>, oldWord: string, raw: string) returns (changed: bool)
      modifies this
      ensures var r := RenameWord(wordsList, oldWord, raw);
        changed == r.Written? && wordFile == (if changed then Json(Some(r.words)) else old(wordFile))
      ensures clients == old(clients) && history == old(history) && outbox == old(outbox)
    {
      changed := false;
      var newWord := Strip(raw);
      if oldWord in wordsList && newWord != [] && Lower(newWord) !in LowerAll(Removed(wordsList, oldWord)) {
        var updated: seq<string> := [];
        var i := 0;
        while i < |wordsList|
          invariant 0 <= i <= |wordsList|
          invariant updated == Renamed(wordsList[..i], oldWord, newWord)
        {
          assert wordsList[..i + 1][..i] == wordsList[..i];
          if wordsList[i] == oldWord {
            updated := updated + [newWord];
          } else {
            updated := updated + [wordsList[i]];
          }
          i := i + 1;
        }
        assert wordsList[..i] == wordsList;
        WriteBlockedWords(updated);
        changed := true;
      }
    }

    /**
     * POST `/manage_blocked_words`: apply one add, delete or edit to the list
     * as read; when the list was written, broadcast the list as stored after
     * the write.
     */
    method ManageBlockedWords(req: EditRequest)
      modifies this
      ensures var r := Apply(StoredWords(old(wordFile)), req);
        && wordFile == (if r.Written? then Json(Some(r.words)) else AfterRead(old(wordFile)))
        && outbox == old(outbox) + (if r.Written? then [Emit(Broadcast, BlockedWordsUpdate(r.words))] else [])
      ensures old(WordsUnique()) ==> WordsUnique()
      ensures clients == old(clients) && history == old(history)
    {
      var wordsList := ReadBlockedWords();
      var changed := false;
      match req {
        case Add(raw) =>
          changed := AddAction(wordsList, raw);
        case Delete(wordToDelete) =>
          changed := DeleteAction(wordsList, wordToDelete);
        case Edit(oldWord, raw) =>
          changed := EditAction(wordsList, oldWord, raw);
        case UnknownAction =>
      }
      if changed {
        var broadcastList := ReadBlockedWords();
        outbox := outbox + [Emit(Broadcast, BlockedWordsUpdate(broadcastList))];
      }
    }
  }
}
