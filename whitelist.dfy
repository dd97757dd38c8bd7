/**
 * The access rule of the whitelist middleware (bot/middleware/whitelist.py):
 * a message passes exactly when it has a sender whose id is allowed, and every
 * refusal of a known sender is recorded as an `unauthorized_access` event.
 */
module Whitelist {
  import opened Common
  import opened Logging

  /** The decision alone: a sender is needed, and its id must be in the allowed list. */
  function Allowed(sender: Option<int>, allowedIds: seq<int>): (ok: bool)
    ensures ok <==> sender.Some? && sender.value in allowedIds
  {
    sender.Some? && sender.value in allowedIds
  }

  /** The record written for a refused sender. */
  function Refusal(userId: int): Record
  {
    Record(LevelFor(None), Message("unauthorized_access", Some(userId), None, None, None))
  }

  /**
   * `WhitelistFilter.filter`: no sender is refused silently; a known sender is
   * let through when allowed, and otherwise refused with one logged event.
   */
  method Filter(logger: Logger, sender: Option<int>, allowedIds: seq<int>) returns (ok: bool)
    modifies logger
    ensures ok == Allowed(sender, allowedIds)
    ensures logger.records == old(logger.records)
      + (if sender.Some? && !ok then [Refusal(sender.value)] else [])
  {
    if sender.None? {
      return false;
    }
    var userId := sender.value;
    var isAllowed := userId in allowedIds;
    if !isAllowed {
      LogEvent(logger, "unauthorized_access", Some(userId), None, None, None);
    }
    return isAllowed;
  }

  /** A refusal is an info-level record naming the event and the user, in that order. */
  lemma RefusalText(userId: int)
    ensures Refusal(userId).level == Info
    ensures Refusal(userId).message == "EVENT=unauthorized_access | user_id=" + Text.IntToString(userId)
  {
    var id := Text.IntToString(userId);
    RefusalFields(userId);
    TwoPartMessage(id);
  }

  lemma RefusalFields(userId: int)
    ensures Fields("unauthorized_access", Some(userId), None, None, None)
      == [Field(EventKey, "unauthorized_access"), Field(UserIdKey, Text.IntToString(userId))]
  {
  }

  lemma TwoPartMessage(id: string)
    ensures Text.Join(Render([Field(EventKey, "unauthorized_access"), Field(UserIdKey, id)]), " | ")
      == "EVENT=unauthorized_access | user_id=" + id
  {
    var parts := Render([Field(EventKey, "unauthorized_access"), Field(UserIdKey, id)]);
    assert parts[1..] == [parts[1]];
    assert Text.Join(parts, " | ") == parts[0] + " | " + parts[1];
    var head := "EVENT=unauthorized_access | ";
    EventHead();
    assert parts[0] == RenderField(Field(EventKey, "unauthorized_access"));
    assert parts[1] == "user_id=" + id;
    assert head + ("user_id=" + id) == "EVENT=unauthorized_access | user_id=" + id;
  }

  lemma EventHead()
    ensures RenderField(Field(EventKey, "unauthorized_access")) + " | " == "EVENT=unauthorized_access | "
  {
  }

  /** Refusals name the refused user: two different users give two different records. */
  lemma RefusalsDistinguishUsers(u: int, v: int)
    requires u != v
    ensures Refusal(u) != Refusal(v)
  {
    RefusalText(u);
    RefusalText(v);
    var p := "EVENT=unauthorized_access | user_id=";
    Text.IntToStringInjective(u, v);
    assert Refusal(u).message[|p|..] == Text.IntToString(u);
    assert Refusal(v).message[|p|..] == Text.IntToString(v);
  }
}
