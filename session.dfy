/**
 * The session store and the flash messages kept inside it.
 *
 * `$_SESSION` becomes the `data` field of Session; `session_start()` becomes
 * the constructor's argument (whatever the session held from earlier
 * requests). Flash messages live under the single key `flash_messages` as a
 * map from message key to `(remove, value)`. A message is marked `remove`
 * when a request starts or when it is read, and marked messages are swept
 * when the FlashSession goes away at the end of the request.
 */
module Sessions {
  import opened Php

  const FLASH_KEY := "flash_messages"

  /** `$_SESSION[$key] ?? false`: `??` also fires on a stored null. */
  function Lookup(data: map<string, Value>, key: string): (v: Value)
    ensures key in data && data[key] != Null ==> v == data[key]
    ensures key !in data || data[key] == Null ==> v == Bool(false)
    ensures v != Null
  {
    if key in data && data[key] != Null then data[key] else Bool(false)
  }

  /** `get` after `set` sees the value, after `remove` sees `false`; other keys are untouched. */
  lemma LookupAfterWrite(data: map<string, Value>, key: string, other: string, v: Value)
    requires other != key
    ensures v != Null ==> Lookup(data[key := v], key) == v
    ensures Lookup(data - {key}, key) == Bool(false)
    ensures Lookup(data[key := v], other) == Lookup(data, other)
    ensures Lookup(data - {key}, other) == Lookup(data, other)
  {
  }

  /** A null that was set reads back as `false`, like a key never set. */
  lemma LookupAfterWriteNull(data: map<string, Value>, key: string)
    ensures Lookup(data[key := Null], key) == Bool(false)
    ensures Lookup(data[key := Null], key) == Lookup(data - {key}, key)
  {
  }

  /**
   * The flash messages stored in a session. A missing or null entry reads as
   * `false`, on which `?? []` does not fire; iterating or indexing `false` yields
   * nothing, so it behaves as an empty map and is read as one here.
   */
  function Messages(data: map<string, Value>): map<string, FlashMessage> {
    match Lookup(data, FLASH_KEY)
    case FlashBag(m) => m
    case _ => map[]
  }

  // ------------------------------------------------ the flash state machine

  /** Request start: every existing message is marked for removal, values kept. */
  function MarkAll(m: map<string, FlashMessage>): (r: map<string, FlashMessage>)
    ensures r.Keys == m.Keys
    ensures forall k :: k in r ==> r[k].remove && r[k].value == m[k].value
  {
    map k | k in m :: m[k].(remove := true)
  }

  /** `set`: a fresh, unmarked message under `key`. */
  function Put(m: map<string, FlashMessage>, key: string, msg: string): map<string, FlashMessage> {
    m[key := FlashMessage(false, msg)]
  }

  /** What `get` returns: the stored value, or `false`. */
  function Read(m: map<string, FlashMessage>, key: string): Value {
    if key in m then Str(m[key].value) else Bool(false)
  }

  /** The messages after `get`: a present, truthy message becomes marked. */
  function AfterRead(m: map<string, FlashMessage>, key: string): map<string, FlashMessage> {
    if key in m && TruthyString(m[key].value) then m[key := m[key].(remove := true)] else m
  }

  /** End of request: exactly the marked messages are dropped. */
  function Sweep(m: map<string, FlashMessage>): (r: map<string, FlashMessage>)
    ensures forall k :: k in r <==> k in m && !m[k].remove
    ensures forall k :: k in r ==> r[k] == m[k]
  {
    map k | k in m && !m[k].remove :: m[k]
  }

  /**
   * A message set during a request is still there after that request's sweep,
   * readable and unmarked, and it is gone after the next request's sweep.
   */
  lemma FlashLivesOneMoreRequest(m: map<string, FlashMessage>, key: string, msg: string)
    ensures var now := Sweep(Put(MarkAll(m), key, msg));
      key in now && now[key] == FlashMessage(false, msg) && Read(now, key) == Str(msg) &&
      key !in Sweep(MarkAll(now))
  {
  }

  /** Nothing that was there when a request started survives its sweep unless set again. */
  lemma SweepAfterMarkAllEmpties(m: map<string, FlashMessage>)
    ensures Sweep(MarkAll(m)) == map[]
  {
  }

  /** Reading a message marks it, so it does not outlive the current request. */
  lemma ReadMessageIsSwept(m: map<string, FlashMessage>, key: string)
    requires key in m && TruthyString(m[key].value)
    ensures key !in Sweep(AfterRead(m, key))
    ensures Read(m, key) == Str(m[key].value)
  {
  }

  // ---------------------------------------------------------------- classes

  class Session {
    var data: map<string, Value>
    var flash: FlashSession?

    /** Starts the session over `stored` and attaches a flash helper to this same session. */
    constructor (stored: map<string, Value>)
      ensures data == stored[FLASH_KEY := FlashBag(MarkAll(Messages(stored)))]
      ensures flash != null && flash.session == this
    {
      data := stored;
      flash := null;
      new;
      flash := new FlashSession(this);
    }

    /** `get`: the stored value, or `false` for a missing or null entry. */
    function Get(key: string): (v: Value)
      reads this
      ensures key in data && data[key] != Null ==> v == data[key]
      ensures key !in data || data[key] == Null ==> v == Bool(false)
    {
      Lookup(data, key)
    }

    method Set(key: string, value: Value)
      modifies this`data
      ensures data == old(data)[key := value]
    {
      data := data[key := value];
    }

    method Remove(key: string)
      modifies this`data
      ensures data == old(data) - {key}
    {
      data := data - {key};
    }
  }

  class FlashSession {
    const session: Session

    /** Marks every message already in the session for removal. */
    constructor (session: Session)
      modifies session`data
      ensures this.session == session
      ensures session.data == old(session.data)[FLASH_KEY := FlashBag(MarkAll(Messages(old(session.data))))]
    {
      this.session := session;
      new;
      var messages := Messages(session.data);
      var marked := messages;
      var todo := messages.Keys;
      while todo != {}
        invariant todo <= messages.Keys
        invariant marked.Keys == messages.Keys
        invariant forall k :: k in marked ==> marked[k] == if k in todo then messages[k] else messages[k].(remove := true)
        decreases todo
      {
        var k :| k in todo;
        marked := marked[k := marked[k].(remove := true)];
        todo := todo - {k};
      }
      assert marked == MarkAll(messages);
      session.Set(FLASH_KEY, FlashBag(marked));
    }

    method Get(key: string) returns (message: Value)
      modifies session`data
      ensures message == Read(Messages(old(session.data)), key)
      ensures var m := Messages(old(session.data));
        session.data == if key in m && TruthyString(m[key].value)
                        then old(session.data)[FLASH_KEY := FlashBag(AfterRead(m, key))]
                        else old(session.data)
    {
      var messages := Messages(session.data);
      message := if key in messages then Str(messages[key].value) else Bool(false);
      if Truthy(message) {
        messages := messages[key := messages[key].(remove := true)];
        session.Set(FLASH_KEY, FlashBag(messages));
      }
    }

    method Set(key: string, message: string)
      modifies session`data
      ensures session.data == old(session.data)[FLASH_KEY := FlashBag(Put(Messages(old(session.data)), key, message))]
    {
      var messages := Messages(session.data);
      messages := messages[key := FlashMessage(false, message)];
      session.Set(FLASH_KEY, FlashBag(messages));
    }

    /** What the destructor runs: drops the messages marked for removal. */
    method ClearRemovedFlashMessages()
      modifies session`data
      ensures session.data == old(session.data)[FLASH_KEY := FlashBag(Sweep(Messages(old(session.data))))]
    {
      var messages := Messages(session.data);
      var kept := messages;
      var todo := messages.Keys;
      while todo != {}
        invariant todo <= messages.Keys
        invariant forall k :: k in kept <==> k in messages && (k in todo || !messages[k].remove)
        invariant forall k :: k in kept ==> kept[k] == messages[k]
        decreases todo
      {
        var k :| k in todo;
        if messages[k].remove {
          kept := kept - {k};
        }
        todo := todo - {k};
      }
      assert kept == Sweep(messages);
      session.Set(FLASH_KEY, FlashBag(kept));
    }

    method Clear()
      modifies session`data
      ensures session.data == old(session.data) - {FLASH_KEY}
      ensures Messages(session.data) == map[]
    {
      session.Remove(FLASH_KEY);
    }
  }
}
