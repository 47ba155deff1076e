/**
 The 16:20 Easter egg: on page load and every thirty seconds afterwards the
 page reads the device clock, and when it shows 16:20 it rewrites the time
 stamp and the story title of scene 4 (`#scene4`). The clock reading is a
 parameter; the scene is the four text and style fields the check writes.
 */
module TimeSync {

  /** The fields of scene 4 (`#scene4`) that the check may rewrite. */
  datatype Scene = Scene(stampText: string, stampColor: string, stampShadow: string, titleHtml: string)

  /** A reading of the local clock: `getHours()` and `getMinutes()`. */
  datatype Reading = Reading(hour: int, minute: int)

  const SyncHour: int := 16
  const SyncMinute: int := 20

  const SyncedStamp: string := "2026. 02. 19 (목) 16:20 - TIME SYNCED"
  const SyncedColor: string := "#ffffff"
  const SyncedShadow: string := "0 0 10px rgba(255,255,255,0.4)"
  const SyncedTitle: string := "우연이네요.<br>우리, 같은 시간에 문을 열었군요."

  predicate IsSyncTime(r: Reading)
  {
    r.hour == SyncHour && r.minute == SyncMinute
  }

  /** Every field the check writes holds the value it writes. */
  predicate Synced(s: Scene)
  {
    && s.stampText == SyncedStamp
    && s.stampColor == SyncedColor
    && s.stampShadow == SyncedShadow
    && s.titleHtml == SyncedTitle
  }

  /** One run of the clock check against reading `now`. */
  function Check(now: Reading, s: Scene): (r: Scene)
    ensures IsSyncTime(now) ==> Synced(r)
    ensures !IsSyncTime(now) ==> r == s
  {
    if now.hour == SyncHour && now.minute == SyncMinute then
      Scene(SyncedStamp, SyncedColor, SyncedShadow, SyncedTitle)
    else
      s
  }

  /** Checking twice against the same reading is the same as checking once. */
  lemma CheckIdempotent(now: Reading, s: Scene)
    ensures Check(now, Check(now, s)) == Check(now, s)
  {
  }

  /** The check only ever changes the scene at 16:20, and a synced scene stays as it is. */
  lemma CheckChangesOnlyAtSyncTime(now: Reading, s: Scene)
    ensures Check(now, s) != s ==> IsSyncTime(now)
    ensures Synced(s) ==> Check(now, s) == s
  {
  }

  /** The load-time check followed by one check per timer tick, for the readings in order. */
  function Poll(readings: seq<Reading>, s: Scene): Scene
    decreases |readings|
  {
    if |readings| == 0 then s else Poll(readings[1..], Check(readings[0], s))
  }

  /**
   After a sequence of checks the scene is synced exactly when it was
   already synced or some reading showed 16:20; if none did, nothing
   changed.
   */
  lemma {:induction false} PollSyncedIff(readings: seq<Reading>, s: Scene)
    ensures Synced(Poll(readings, s)) <==> Synced(s) || exists i :: 0 <= i < |readings| && IsSyncTime(readings[i])
    ensures (forall i :: 0 <= i < |readings| ==> !IsSyncTime(readings[i])) ==> Poll(readings, s) == s
    decreases |readings|
  {
    if |readings| > 0 {
      var rest := readings[1..];
      PollSyncedIff(rest, Check(readings[0], s));
      if exists i :: 0 <= i < |rest| && IsSyncTime(rest[i]) {
        var i :| 0 <= i < |rest| && IsSyncTime(rest[i]);
        assert IsSyncTime(readings[i + 1]);
      }
      if exists i :: 0 <= i < |readings| && IsSyncTime(readings[i]) {
        var i :| 0 <= i < |readings| && IsSyncTime(readings[i]);
        if i > 0 {
          assert IsSyncTime(rest[i - 1]);
        }
      }
      if forall i :: 0 <= i < |readings| ==> !IsSyncTime(readings[i]) {
        assert forall i :: 0 <= i < |rest| ==> !IsSyncTime(rest[i]) by {
          forall i | 0 <= i < |rest| ensures !IsSyncTime(rest[i]) {
            assert rest[i] == readings[i + 1];
          }
        }
      }
    }
  }
}
