/** The manager's reading of the chat server's status
    (queue/queue-manager/.../model/ServerStatus.java): the user count and the
    two caps, either of which may be missing. */
module ServerStatusModel {
  import opened Wrappers

  datatype ServerStatus = ServerStatus(currentUsers: int, softCap: Option<int>, maxCap: Option<int>)

  predicate IsPositiveCap(c: Option<int>) {
    c.Some? && c.value > 0
  }

  /** resolveSoftCap: the soft cap when it is positive, else the max cap when
      it is positive, else the fallback. */
  function ResolveSoftCap(s: ServerStatus, fallback: int): (cap: int)
    ensures fallback > 0 ==> cap > 0
    ensures IsPositiveCap(s.softCap) ==> cap == s.softCap.value
    ensures !IsPositiveCap(s.softCap) && IsPositiveCap(s.maxCap) ==> cap == s.maxCap.value
    ensures !IsPositiveCap(s.softCap) && !IsPositiveCap(s.maxCap) ==> cap == fallback
  {
    if s.softCap.Some? && s.softCap.value > 0 then s.softCap.value
    else if s.maxCap.Some? && s.maxCap.value > 0 then s.maxCap.value
    else fallback
  }

  /** The first positive value of a list of nullable numbers, or the
      fallback. */
  function FirstPositive(cs: seq<Option<int>>, fallback: int): int {
    if |cs| == 0 then fallback
    else if IsPositiveCap(cs[0]) then cs[0].value
    else FirstPositive(cs[1..], fallback)
  }

  /** The soft cap the manager works with is the first positive one of the
      published soft cap and max cap. */
  lemma ResolveIsFirstPositive(s: ServerStatus, fallback: int)
    ensures ResolveSoftCap(s, fallback) == FirstPositive([s.softCap, s.maxCap], fallback)
  {
    var cs := [s.softCap, s.maxCap];
    assert cs[1..] == [s.maxCap] && [s.maxCap][1..] == [];
    assert FirstPositive([s.maxCap], fallback)
      == if IsPositiveCap(s.maxCap) then s.maxCap.value else FirstPositive([], fallback);
  }
}
