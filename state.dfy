/**
 * The per-user live-message tracker (bot/utils/state.py): for each user, the
 * id of the message that shows their file list and the page it shows.
 */
module SessionState {
  import opened Common

  /** The `(message_id, page)` pair kept for a user. */
  datatype LiveMessage = LiveMessage(messageId: int, page: int)

  type Table = map<int, LiveMessage>

  // ---------------------------------------------------------------------------
  // the table operations as functions

  /** The table after `set_live_message(user, messageId, page)`. */
  function WithEntry(t: Table, user: int, messageId: int, page: int): (r: Table)
    ensures user in r && r[user] == LiveMessage(messageId, page)
    ensures forall v :: v != user ==> (v in r <==> v in t) && (v in t ==> r[v] == t[v])
  {
    t[user := LiveMessage(messageId, page)]
  }

  /** The table after `update_page(user, page)`: only an existing entry changes, and only its page. */
  function WithPage(t: Table, user: int, page: int): (r: Table)
    ensures r.Keys == t.Keys
    ensures user in t ==> r[user] == LiveMessage(t[user].messageId, page)
    ensures forall v :: v in t && v != user ==> r[v] == t[v]
  {
    if user in t then t[user := LiveMessage(t[user].messageId, page)] else t
  }

  /** The table after `clear_user(user)`. */
  function Without(t: Table, user: int): (r: Table)
    ensures user !in r
    ensures forall v :: v != user ==> (v in r <==> v in t) && (v in t ==> r[v] == t[v])
  {
    t - {user}
  }

  /** Updating the page right after setting the entry is the same as setting it with that page. */
  lemma UpdateAfterSet(t: Table, user: int, messageId: int, page: int, page': int)
    ensures WithPage(WithEntry(t, user, messageId, page), user, page') == WithEntry(t, user, messageId, page')
  {
  }

  /** Updating the page of a user without an entry changes nothing. */
  lemma UpdateAbsent(t: Table, user: int, page: int)
    requires user !in t
    ensures WithPage(t, user, page) == t
  {
  }

  /** Clearing a user undoes setting an entry for a user who had none. */
  lemma ClearAfterSet(t: Table, user: int, messageId: int, page: int)
    requires user !in t
    ensures Without(WithEntry(t, user, messageId, page), user) == t
  {
  }

  /** Clearing is idempotent: a second clear finds nothing to remove. */
  lemma ClearTwice(t: Table, user: int)
    ensures Without(Without(t, user), user) == Without(t, user)
  {
  }

  /** Operations on two different users commute. */
  lemma SetOtherUsersCommute(t: Table, u: int, v: int, m: int, p: int, m': int, p': int)
    requires u != v
    ensures WithEntry(WithEntry(t, u, m, p), v, m', p') == WithEntry(WithEntry(t, v, m', p'), u, m, p)
  {
  }

  // ---------------------------------------------------------------------------
  // the class

  /** `UserState`: the in-memory table of live messages. */
  class UserState {
    var live: Table

    constructor ()
      ensures live == map[]
    {
      live := map[];
    }

    /** `get_live_message`: the user's pair, or `None` for a user without an entry. */
    function GetLiveMessage(user: int): (r: Option<LiveMessage>)
      reads this
      ensures r.None? <==> user !in live
      ensures r.Some? ==> r.value == live[user]
    {
      if user in live then Some(live[user]) else None
    }

    /** `set_live_message`: the user's pair becomes `(messageId, page)`; `page` defaults to 0. */
    method SetLiveMessage(user: int, messageId: int, page: int := 0)
      modifies this
      ensures live == WithEntry(old(live), user, messageId, page)
      ensures GetLiveMessage(user) == Some(LiveMessage(messageId, page))
    {
      live := live[user := LiveMessage(messageId, page)];
    }

    /** `update_page`: keeps the message id and replaces the page; a user without an entry is left without one. */
    method UpdatePage(user: int, page: int)
      modifies this
      ensures live == WithPage(old(live), user, page)
    {
      if user in live {
        var messageId := live[user].messageId;
        live := live[user := LiveMessage(messageId, page)];
      }
    }

    /** `clear_user`: forgets the user's entry, if there is one. */
    method ClearUser(user: int)
      modifies this
      ensures live == Without(old(live), user)
      ensures GetLiveMessage(user) == None
    {
      live := live - {user};
    }
  }
}
