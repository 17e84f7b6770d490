/** The chat channel the bots write to, seen only through what they do with it:
    `channel.send` posts a message and hands back its handle, `message.edit` and
    `message.delete` act on a posted message and report NotFound when it is gone,
    and `client.change_presence` sets the bot's activity text. */
module Sink {

  /** One call made on the channel, in the order made. */
  datatype Op<C> =
    | Sent(handle: nat, content: C)
    | Edited(handle: nat, content: C, found: bool)
    | Deleted(handle: nat, found: bool)
    | PresenceSet(text: string)

  /** What the channel holds at one moment, and every call made on it so far. */
  datatype State<C> = State(posted: map<nat, C>, nextHandle: nat, presence: string, log: seq<Op<C>>)

  /** Every posted message has a handle that was handed out already. */
  predicate HandlesIssued<C>(s: State<C>) {
    forall h :: h in s.posted ==> h < s.nextHandle
  }

  /** The channel after `channel.send(content)`. */
  function AfterSend<C>(s: State<C>, content: C): (r: State<C>)
    ensures HandlesIssued(s) ==> HandlesIssued(r) && s.nextHandle !in s.posted
  {
    State(s.posted[s.nextHandle := content], s.nextHandle + 1, s.presence, s.log + [Sent(s.nextHandle, content)])
  }

  /** The channel after `message.edit(content)` on the message `h`, NotFound when it is gone. */
  function AfterEdit<C>(s: State<C>, h: nat, content: C): (r: State<C>)
    ensures r.posted.Keys == s.posted.Keys && r.nextHandle == s.nextHandle && r.presence == s.presence
  {
    if h in s.posted then State(s.posted[h := content], s.nextHandle, s.presence, s.log + [Edited(h, content, true)])
    else s.(log := s.log + [Edited(h, content, false)])
  }

  /** The channel after `message.delete()` on the message `h`, NotFound when it is gone. */
  function AfterDelete<C>(s: State<C>, h: nat): (r: State<C>)
    ensures h !in r.posted && r.nextHandle == s.nextHandle && r.presence == s.presence
    ensures forall g :: g in r.posted <==> g in s.posted && g != h
  {
    State(s.posted - {h}, s.nextHandle, s.presence, s.log + [Deleted(h, h in s.posted)])
  }

  /** The channel after `client.change_presence` with the activity `text`. */
  function AfterPresence<C>(s: State<C>, text: string): State<C> {
    s.(presence := text, log := s.log + [PresenceSet(text)])
  }

  /** The channel after someone else (a moderator, say) deletes the message `h`: the bot
      makes no call, so nothing is logged. */
  function Withdrawn<C>(s: State<C>, h: nat): State<C> {
    s.(posted := s.posted - {h})
  }

  class Channel<C> {
    /** The messages on the channel, by handle. */
    var posted: map<nat, C>
    /** The handle the next `send` returns: handles are never reused. */
    var nextHandle: nat
    var presence: string
    /** Every call made so far. */
    var log: seq<Op<C>>

    /** Every posted message has a handle that was handed out already. */
    ghost predicate Valid()
      reads this
    {
      HandlesIssued(Snapshot())
    }

    function Snapshot(): State<C>
      reads this
    {
      State(posted, nextHandle, presence, log)
    }

    constructor ()
      ensures Valid() && posted == map[] && nextHandle == 0 && presence == "" && log == []
    {
      posted := map[];
      nextHandle := 0;
      presence := "";
      log := [];
    }

    /** `channel.send`: a new message under a handle never handed out before. */
    method Send(content: C) returns (h: nat)
      requires Valid()
      modifies this
      ensures Valid()
      ensures h == old(nextHandle) && h !in old(posted)
      ensures posted == old(posted)[h := content] && nextHandle == h + 1
      ensures presence == old(presence) && log == old(log) + [Sent(h, content)]
      ensures Snapshot() == AfterSend(old(Snapshot()), content)
    {
      h := nextHandle;
      posted := posted[h := content];
      nextHandle := nextHandle + 1;
      log := log + [Sent(h, content)];
    }

    /** `message.edit`: replace the content of a posted message; `found` is false for
        NotFound, when the message is gone, and then nothing changes. */
    method Edit(h: nat, content: C) returns (found: bool)
      requires Valid()
      modifies this
      ensures Valid()
      ensures found == (h in old(posted))
      ensures posted == if found then old(posted)[h := content] else old(posted)
      ensures nextHandle == old(nextHandle) && presence == old(presence)
      ensures log == old(log) + [Edited(h, content, found)]
      ensures Snapshot() == AfterEdit(old(Snapshot()), h, content)
    {
      found := h in posted;
      if found {
        posted := posted[h := content];
      }
      log := log + [Edited(h, content, found)];
    }

    /** `message.delete`; `found` is false for NotFound. */
    method Delete(h: nat) returns (found: bool)
      requires Valid()
      modifies this
      ensures Valid()
      ensures found == (h in old(posted))
      ensures posted == old(posted) - {h}
      ensures nextHandle == old(nextHandle) && presence == old(presence)
      ensures log == old(log) + [Deleted(h, found)]
      ensures Snapshot() == AfterDelete(old(Snapshot()), h)
    {
      found := h in posted;
      posted := posted - {h};
      log := log + [Deleted(h, found)];
    }

    /** `client.change_presence` with a watching activity named `text`. */
    method ChangePresence(text: string)
      requires Valid()
      modifies this
      ensures Valid()
      ensures posted == old(posted) && nextHandle == old(nextHandle)
      ensures presence == text && log == old(log) + [PresenceSet(text)]
      ensures Snapshot() == AfterPresence(old(Snapshot()), text)
    {
      presence := text;
      log := log + [PresenceSet(text)];
    }

    /** A message deleted by someone other than the bot, such as a moderator. The bot
        still holds the message object, and its next edit or delete of it gets NotFound. */
    method DeleteByOthers(h: nat)
      requires Valid()
      modifies this
      ensures Valid()
      ensures posted == old(posted) - {h}
      ensures nextHandle == old(nextHandle) && presence == old(presence) && log == old(log)
      ensures Snapshot() == Withdrawn(old(Snapshot()), h)
    {
      posted := posted - {h};
    }
  }
}
