/**
 * The presence `sync` callback of the list page. The roster the presence
 * channel reports is a record from connection key to the entries tracked
 * under it; the callback flattens its values and asks whether any entry
 * belongs to someone other than the local user.
 */
module Presence {
  import opened Seqs
  import opened Items

  /** One tracked presence entry: the payload `{ user_id }` a client announced. */
  datatype Tracked = Tracked(userId: Id)

  /** `Object.values(presenceState())`: the entry groups, one per connection key. */
  type Roster = seq<seq<Tracked>>

  /** `Object.values(state).flat().some(u => u.user_id !== me)`. */
  function PartnerOnline(roster: Roster, me: Id): (b: bool)
    ensures b <==> exists i, j :: 0 <= i < |roster| && 0 <= j < |roster[i]| && roster[i][j].userId != me
  {
    var all := Flatten(roster);
    var online := Any(all, (u: Tracked) => u.userId != me);
    assert online ==> exists i, j :: 0 <= i < |roster| && 0 <= j < |roster[i]| && roster[i][j].userId != me
    by {
      if online {
        var k :| 0 <= k < |all| && all[k].userId != me;
        assert all[k] in all;
        var i :| 0 <= i < |roster| && all[k] in roster[i];
        var j :| 0 <= j < |roster[i]| && roster[i][j] == all[k];
      }
    }
    assert (exists i, j :: 0 <= i < |roster| && 0 <= j < |roster[i]| && roster[i][j].userId != me) ==>
      exists k :: 0 <= k < |all| && all[k].userId != me
    by {
      if exists i, j :: 0 <= i < |roster| && 0 <= j < |roster[i]| && roster[i][j].userId != me {
        var i, j :| 0 <= i < |roster| && 0 <= j < |roster[i]| && roster[i][j].userId != me;
        var u := roster[i][j];
        assert u in roster[i];
        assert u in all;
      }
    }
    online
  }

  /** A roster holding only the local user's own entries reports no partner. */
  lemma OnlySelfIsOffline(roster: Roster, me: Id)
    requires forall i, j :: 0 <= i < |roster| && 0 <= j < |roster[i]| ==> roster[i][j].userId == me
    ensures !PartnerOnline(roster, me)
  {
  }

  /** A sync that adds a connection tracked by someone else turns the flag on. */
  lemma OtherJoinIsOnline(roster: Roster, me: Id, other: Id)
    requires other != me
    ensures PartnerOnline(roster + [[Tracked(other)]], me)
  {
    var r: Roster := roster + [[Tracked(other)]];
    assert r[|roster|][0].userId != me;
  }
}
