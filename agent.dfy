/**
 * The enforcement agent: its cached word list, the keystroke buffer, the lock
 * and the connection flag, and the messages it sends to the hub. Each method
 * is one callback of the agent: a key press, a word-list push, a connect, an
 * unlock attempt at the overlay.
 */
module EnforcementAgent {
  import opened Wrappers
  import opened Text

  /** The fixed secret that unlocks the overlay. */
  const UnlockSecret: string := "ADMIN"
  const Enabled: string := "enabled"
  const Disabled: string := "disabled"

  /** A key event: a key with a character, the space bar, backspace, or any other special key. */
  datatype Key = Char(c: char) | Space | Backspace | OtherKey

  /** A message the agent emits to the hub. */
  datatype Outgoing =
    | StatusMsg(clientId: string, status: string)
    | BlockedWordMsg(clientId: string, word: string)
    | RequestBlockedWords

  /** The buffer edit of one key press. */
  function EditBuffer(buf: string, key: Key): (r: string)
    ensures key.Char? ==> r == buf + [key.c]
    ensures key.Space? ==> r == buf + [' ']
    ensures key.Backspace? ==> (if |buf| > 0 then r + [buf[|buf| - 1]] == buf else r == buf)
    ensures key.OtherKey? ==> r == buf
  {
    match key
    case Char(c) => buf + [c]
    case Space => buf + [' ']
    case Backspace => if |buf| > 0 then buf[..|buf| - 1] else buf
    case OtherKey => buf
  }

  /** Backspace takes back the character a key press added. */
  lemma BackspaceUndoesKey(buf: string, key: Key)
    requires key.Char? || key.Space?
    ensures EditBuffer(EditBuffer(buf, key), Backspace) == buf
  {
    var typed := EditBuffer(buf, key);
    assert typed[..|typed| - 1] == buf;
  }

  /** `word` occurs in the buffer, ignoring case (`word.lower() in key_buffer.lower()`). */
  function Matches(word: string, buf: string): (b: bool)
    ensures b <==> exists k :: OccursAt(Lower(buf), Lower(word), k)
  {
    ContainsIffOccurs(Lower(buf), Lower(word));
    Contains(Lower(buf), Lower(word))
  }

  /** The position of the first cached word, in list order, that occurs in the buffer. */
  function FirstMatch(words: seq<string>, buf: string): (r: Option<nat>)
    ensures r.Some? ==> r.value < |words| && Matches(words[r.value], buf)
    ensures r.Some? ==> forall j :: 0 <= j < r.value ==> !Matches(words[j], buf)
    ensures r.None? <==> forall j :: 0 <= j < |words| ==> !Matches(words[j], buf)
  {
    if words == [] then None
    else if Matches(words[0], buf) then Some(0)
    else match FirstMatch(words[1..], buf)
      case Some(i) => Some(i + 1)
      case None => None
  }

  /** A cached empty word matches every buffer, so it triggers on every key press. */
  lemma EmptyWordAlwaysMatches(words: seq<string>, buf: string, i: nat)
    requires i < |words| && words[i] == []
    ensures FirstMatch(words, buf).Some? && FirstMatch(words, buf).value <= i
  {
    assert Lower(words[i]) == [];
    assert Lower(buf)[..0] == [];
    assert Matches(words[i], buf);
  }

  class Agent {
    const clientId: string
    var blockedWords: seq<string>
    var keyBuffer: string
    var locked: bool
    var connected: bool
    var outbox: seq<Outgoing>

    /** Start-up: the word file's list if it could be read, otherwise an empty cache; unlocked and not yet connected. */
    constructor (id: string, startupWords: Option<seq<string>>)
      ensures clientId == id && blockedWords == startupWords.GetOr([])
      ensures keyBuffer == [] && !locked && !connected && outbox == []
    {
      clientId := id;
      blockedWords := startupWords.GetOr([]);
      keyBuffer := [];
      locked := false;
      connected := false;
      outbox := [];
    }

    /** The `connect` callback: announce `enabled`, then ask for the word list. */
    method Connect()
      modifies this
      ensures connected
      ensures outbox == old(outbox) + [StatusMsg(clientId, Enabled), RequestBlockedWords]
      ensures blockedWords == old(blockedWords) && keyBuffer == old(keyBuffer) && locked == old(locked)
    {
      connected := true;
      outbox := outbox + [StatusMsg(clientId, Enabled)];
      outbox := outbox + [RequestBlockedWords];
    }

    /** The transport drops the channel; nothing else changes. */
    method Disconnect()
      modifies this
      ensures !connected
      ensures outbox == old(outbox) && blockedWords == old(blockedWords)
      ensures keyBuffer == old(keyBuffer) && locked == old(locked)
    {
      connected := false;
    }

    /** A `blocked_words_update` push: replace the cached list wholesale; the buffer is left alone. */
    method HandleBlockedWordsUpdate(words: seq<string>)
      modifies this
      ensures blockedWords == words
      ensures keyBuffer == old(keyBuffer) && locked == old(locked)
      ensures connected == old(connected) && outbox == old(outbox)
    {
      blockedWords := words;
    }

    /** Report the trigger (only when connected), then enter the lock (always). */
    method SendDisabledStatus(word: string)
      modifies this
      ensures locked
      ensures outbox == old(outbox) +
        (if connected then [BlockedWordMsg(clientId, word), StatusMsg(clientId, Disabled)] else [])
      ensures blockedWords == old(blockedWords) && keyBuffer == old(keyBuffer) && connected == old(connected)
    {
      if connected {
        outbox := outbox + [BlockedWordMsg(clientId, word)];
        outbox := outbox + [StatusMsg(clientId, Disabled)];
      }
      locked := true;
    }

    /**
     * A key press: edit the buffer, then scan the cached words in order; the
     * first one found in the buffer is reported, the agent locks and the buffer
     * is emptied. Without a match only the buffer changes. No key reaches this
     * callback while locked: the overlay's main loop runs inside the callback
     * that locked, so the listener delivers nothing until the unlock.
     */
    method OnPress(key: Key)
      requires !locked
      modifies this
      ensures var edited := EditBuffer(old(keyBuffer), key);
        match FirstMatch(blockedWords, edited)
        case None =>
          keyBuffer == edited && locked == old(locked) && outbox == old(outbox)
        case Some(i) =>
          && keyBuffer == [] && locked
          && outbox == old(outbox) +
               (if connected then [BlockedWordMsg(clientId, blockedWords[i]), StatusMsg(clientId, Disabled)] else [])
      ensures blockedWords == old(blockedWords) && connected == old(connected)
    {
      keyBuffer := EditBuffer(keyBuffer, key);
      ghost var edited := keyBuffer;
      var i := 0;
      while i < |blockedWords|
        invariant 0 <= i <= |blockedWords|
        invariant forall j :: 0 <= j < i ==> !Matches(blockedWords[j], edited)
        invariant keyBuffer == edited && locked == old(locked) && outbox == old(outbox)
        invariant blockedWords == old(blockedWords) && connected == old(connected)
      {
        var word := blockedWords[i];
        if Contains(Lower(keyBuffer), Lower(word)) {
          SendDisabledStatus(word);
          keyBuffer := [];
          assert FirstMatch(blockedWords, edited) == Some(i);
          break;
        }
        i := i + 1;
      }
    }

    /**
     * The overlay's submit button: only the secret unlocks; then `enabled` is
     * reported when connected. A wrong entry keeps the lock and sends nothing.
     */
    method CheckPassword(entered: string)
      requires locked
      modifies this
      ensures locked <==> entered != UnlockSecret
      ensures outbox == old(outbox) +
        (if entered == UnlockSecret && connected then [StatusMsg(clientId, Enabled)] else [])
      ensures blockedWords == old(blockedWords) && keyBuffer == old(keyBuffer) && connected == old(connected)
    {
      if entered == UnlockSecret {
        locked := false;
        if connected {
          outbox := outbox + [StatusMsg(clientId, Enabled)];
        }
      }
    }
  }

  /** Typing "xbanned" with the cached list ["banned"]: no prefix up to "xbanne" matches, "xbanned" does. */
  lemma BannedTriggersOnLastKey()
    ensures forall n :: 0 <= n <= 6 ==> FirstMatch(["banned"], "xbanned"[..n]) == None
    ensures FirstMatch(["banned"], "xbanned") == Some(0)
  {
    var words: seq<string> := ["banned"];
    assert words[1..] == [];
    forall n | 0 <= n <= 6 ensures FirstMatch(words, "xbanned"[..n]) == None {
      var hay := Lower("xbanned"[..n]);
      assert |hay| == n && |Lower("banned")| == 6;
      if n == 6 {
        assert hay[0] == 'x' && Lower("banned")[0] == 'b';
        assert hay[..6] != Lower("banned");
        assert !Contains(hay[1..], Lower("banned"));
      }
      assert !Matches(words[0], "xbanned"[..n]);
    }
    var hay := Lower("xbanned");
    assert hay[1..][..6] == Lower("banned");
  }

  /**
   * The lock/unlock round trip: a connected agent with the list ["banned"]
   * reports the word and `disabled` as the user finishes typing "xbanned",
   * locks with an empty buffer, and after "ADMIN" reports `enabled`.
   */
  method LockUnlockRoundTrip(id: string)
  {
    var agent := new Agent(id, None);
    agent.Connect();
    agent.HandleBlockedWordsUpdate(["banned"]);
    BannedTriggersOnLastKey();
    var typed := "xbanned";
    var n := 0;
    while n < 6
      invariant 0 <= n <= 6
      invariant agent.keyBuffer == typed[..n] && !agent.locked && agent.connected
      invariant agent.blockedWords == ["banned"]
      invariant agent.outbox == [StatusMsg(id, Enabled), RequestBlockedWords]
    {
      assert typed[..n] + [typed[n]] == typed[..n + 1];
      agent.OnPress(Char(typed[n]));
      n := n + 1;
    }
    assert typed[..6] + [typed[6]] == typed;
    agent.OnPress(Char(typed[6]));
    assert agent.locked && agent.keyBuffer == [];
    assert agent.outbox == [StatusMsg(id, Enabled), RequestBlockedWords,
                            BlockedWordMsg(id, "banned"), StatusMsg(id, Disabled)];
    agent.CheckPassword("admin");
    assert agent.locked;
    agent.CheckPassword(UnlockSecret);
    assert !agent.locked;
    assert agent.outbox[4..] == [StatusMsg(id, Enabled)];
  }
}
