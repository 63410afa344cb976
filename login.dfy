/**
 * The login page: it loads the interaction log and the intervention group
 * into the session once, and logs a user in under any non-blank name.
 */
module Login {
  import opened Data
  import opened Text
  import opened State

  /**
   * attach_WMM_data.  Each of the two objects is read only while the session
   * lacks it.  `storageOk` says whether the reads succeed; a failed read
   * raises, so a failed read of the log skips the read of the group, and
   * `ok` is false when the page stops on such an error.
   */
  method AttachWMMData(session: Session, bucket: Bucket, storageOk: bool) returns (ok: bool)
    modifies session`dataset, session`interventionGroup
    ensures session.dataset ==
            if old(session.dataset).Some? then old(session.dataset)
            else if storageOk then Some(bucket.interactions) else None
    ensures session.interventionGroup ==
            if old(session.interventionGroup).Some? then old(session.interventionGroup)
            else if storageOk then Some(Unique(bucket.groupUsernames)) else None
    ensures ok <==> session.dataset.Some? && session.interventionGroup.Some?
  {
    if session.dataset.None? {
      if !storageOk {
        return false;
      }
      session.dataset := Some(bucket.interactions);
    }
    if session.interventionGroup.None? {
      if !storageOk {
        return false;
      }
      session.interventionGroup := Some(Unique(bucket.groupUsernames));
    }
    return true;
  }

  /** What pressing the login button does with the typed name. */
  datatype LoginResult = LoadFailed | Idle | BlankWarning | LoggedIn(interventionalist: bool)

  /**
   * A name that is blank after stripping is refused with a warning; any
   * other name logs in as typed, as an interventionalist exactly when it is
   * in the intervention group.
   */
  function LoginOutcome(input: string, group: seq<string>): (r: LoginResult)
    ensures r == BlankWarning <==> AllSpace(input)
    ensures r != BlankWarning ==> r == LoggedIn(input in group)
  {
    StripEmptyIff(input);
    if Strip(input) == "" then BlankWarning else LoggedIn(input in group)
  }

  /**
   * The name is stored as typed, not stripped: a group member who types a
   * space before their name logs in, but not as an interventionalist.
   */
  lemma PaddedNameIsNotRecognised()
    ensures LoginOutcome(" abc123", ["abc123"]) == LoggedIn(false)
    ensures LoginOutcome("abc123", ["abc123"]) == LoggedIn(true)
  {
    assert !IsSpace(" abc123"[1]);
    assert " abc123" != "abc123";
  }

  /** Keeping only the distinct usernames does not change who is in the group. */
  lemma GroupMembership(input: string, usernames: seq<string>)
    ensures LoginOutcome(input, Unique(usernames)) == LoginOutcome(input, usernames)
  {
  }

  /**
   * show.  `input` is the text in the username box and `pressed` whether the
   * login button was pressed on this run.
   */
  method Show(session: Session, bucket: Bucket, input: string, pressed: bool, storageOk: bool)
    returns (r: LoginResult)
    modifies session
    ensures session.dataset ==
            if old(session.dataset).Some? then old(session.dataset)
            else if storageOk then Some(bucket.interactions) else None
    ensures session.interventionGroup ==
            if old(session.interventionGroup).Some? then old(session.interventionGroup)
            else if storageOk then Some(Unique(bucket.groupUsernames)) else None
    ensures r == LoadFailed <==> session.dataset.None? || session.interventionGroup.None?
    ensures r != LoadFailed && !pressed ==> r == Idle
    ensures r != LoadFailed && pressed ==> r == LoginOutcome(input, session.interventionGroup.value)
    ensures r.LoggedIn? ==>
              session.loggedIn && session.username == input && session.interventionalist == r.interventionalist
    ensures !r.LoggedIn? ==>
              session.loggedIn == old(session.loggedIn) && session.username == old(session.username) &&
              session.interventionalist == old(session.interventionalist)
  {
    var ok := AttachWMMData(session, bucket, storageOk);
    if !ok {
      return LoadFailed;
    }
    if !pressed {
      return Idle;
    }
    r := LoginOutcome(input, session.interventionGroup.value);
    if r.LoggedIn? {
      session.loggedIn := true;
      session.username := input;
      session.interventionalist := r.interventionalist;
    }
  }
}
