/**
 * The two pieces of mutable state every page works on: the storage bucket
 * ("wmm-2025") and the per-browser session state.
 */
module State {
  import opened Data

  /** The objects of the storage bucket that the pages read and replace wholesale. */
  class Bucket {
    /** interactions.csv */
    var interactions: seq<Row>
    /** the username column of the intervention-group file */
    var groupUsernames: seq<string>
    /** reports/report_submissions.csv; None while that key does not exist */
    var reportLog: Option<seq<Entry>>
    /** the keys of the uploaded report PDFs */
    var reportKeys: set<string>

    constructor (interactions: seq<Row>, groupUsernames: seq<string>, reportLog: Option<seq<Entry>>, reportKeys: set<string>)
      ensures this.interactions == interactions && this.groupUsernames == groupUsernames
      ensures this.reportLog == reportLog && this.reportKeys == reportKeys
    {
      this.interactions := interactions;
      this.groupUsernames := groupUsernames;
      this.reportLog := reportLog;
      this.reportKeys := reportKeys;
    }
  }

  /**
   * The session state.  A key that is absent reads as false for `loggedIn`
   * (every gate tests "absent or false"); `dataset` and `interventionGroup`
   * are None while absent.
   */
  class Session {
    var loggedIn: bool
    var username: string
    var interventionalist: bool
    var dataset: Option<seq<Row>>
    var interventionGroup: Option<seq<string>>

    /** A fresh browser session: nothing is set yet. */
    constructor ()
      ensures !loggedIn && username == "" && !interventionalist
      ensures dataset == None && interventionGroup == None
    {
      loggedIn := false;
      username := "";
      interventionalist := false;
      dataset := None;
      interventionGroup := None;
    }
  }
}
