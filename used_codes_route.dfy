/** The used-backup-codes store: a JSON file mapping each email address to
    the positions of its used backup codes, read by `GET` and updated one
    address at a time by `POST`, which also mirrors the file to a GitHub
    repository when a token is configured.

    The file is `None` when it is missing or does not parse; whether a
    write or a GitHub commit succeeds is a parameter. */
module UsedCodesRoute {
  import opened Wrappers
  import BackupModal

  /** `Record<string, number[]>`. */
  type UsedCodes = map<string, seq<int>>

  /** `GET /api/used-codes`, and the read at the start of `POST`: the
      stored map, or `{}` when the file cannot be read or parsed. */
  function Get(file: Option<UsedCodes>): (data: UsedCodes)
    ensures file.Some? ==> data == file.value
    ensures file.None? ==> data == map[]
  {
    match file
    case Some(stored) => stored
    case None => map[]
  }

  /** The body of a `POST`: not JSON, JSON `null` (destructuring it
      throws), or the `email` and `usedIndexes` it carries, each possibly
      absent. */
  datatype PostBody = Unparsable | NullBody | Fields(email: Option<string>, usedIndexes: Option<seq<int>>)

  /** The property name `data[email]` uses: an absent email is the string
      `"undefined"`. */
  function Key(email: Option<string>): string {
    match email
    case Some(e) => e
    case None => "undefined"
  }

  /** The map as written after `data[email] = usedIndexes`: the entry for
      `key` is replaced by the new list. An absent list makes the entry
      `undefined`, which `JSON.stringify` leaves out, so the written map
      has no entry for `key`. */
  function Updated(data: UsedCodes, key: string, usedIndexes: Option<seq<int>>): (r: UsedCodes)
    ensures usedIndexes.Some? ==> key in r && r[key] == usedIndexes.value
    ensures usedIndexes.None? ==> key !in r
    ensures forall k :: k != key ==> (k in r <==> k in data)
    ensures forall k :: k != key && k in data ==> r[k] == data[k]
  {
    match usedIndexes
    case Some(list) => data[key := list]
    case None => data - {key}
  }

  /** The second update of the same address replaces the first: lists are
      never merged. */
  lemma LastWriteWins(data: UsedCodes, key: string, first: Option<seq<int>>, second: Option<seq<int>>)
    ensures Updated(Updated(data, key, first), key, second) == Updated(data, key, second)
  {
  }

  /** Updates of two different addresses do not interfere. */
  lemma UpdatesCommute(data: UsedCodes, key1: string, list1: Option<seq<int>>, key2: string, list2: Option<seq<int>>)
    requires key1 != key2
    ensures Updated(Updated(data, key1, list1), key2, list2) == Updated(Updated(data, key2, list2), key1, list1)
  {
    var a := Updated(Updated(data, key1, list1), key2, list2);
    var b := Updated(Updated(data, key2, list2), key1, list1);
    assert a.Keys == b.Keys;
    assert forall k :: k in a ==> a[k] == b[k];
  }

  /** Without a readable file the update starts afresh: only the posted
      address is stored. */
  lemma FreshStart(key: string, list: seq<int>)
    ensures Updated(Get(None), key, Some(list)) == map[key := list]
  {
  }

  datatype Reply = Success | Failure(error: string)

  datatype PostResponse = PostResponse(status: nat, reply: Reply)

  /** `if (!token) return;`: an unset or empty token disables the mirror. */
  predicate MirrorEnabled(githubToken: Option<string>) {
    githubToken.Some? && githubToken.value != ""
  }

  class Store {
    /** The contents of `data/used-codes.json`. */
    var file: Option<UsedCodes>
    /** The contents of the GitHub copy, as last committed from here. */
    var mirror: Option<UsedCodes>
    /** `process.env.GITHUB_TOKEN`. */
    const githubToken: Option<string>

    constructor (file: Option<UsedCodes>, mirror: Option<UsedCodes>, githubToken: Option<string>)
      ensures this.file == file && this.mirror == mirror && this.githubToken == githubToken
    {
      this.file := file;
      this.mirror := mirror;
      this.githubToken := githubToken;
    }

    /** `commitToGitHub(data)`: without a token nothing happens; otherwise
        the copy becomes `data` when the PUT is accepted. Every failure is
        caught here, so the method has no failure to report. */
    method CommitToGitHub(data: UsedCodes, putAccepted: bool)
      modifies this`mirror
      ensures !MirrorEnabled(githubToken) ==> mirror == old(mirror)
      ensures MirrorEnabled(githubToken) ==> mirror == (if putAccepted then Some(data) else old(mirror))
    {
      if !MirrorEnabled(githubToken) {
        return;
      }
      if putAccepted {
        mirror := Some(data);
      }
    }

    /** `POST /api/used-codes`: read the map (or start from `{}`), replace
        the entry of the posted address, write the file, mirror it, answer
        `{success: true}`. A body that cannot be destructured or a failed
        write answers 500 and leaves the file and its copy as they were;
        the mirror's outcome never changes the answer. */
    method Post(body: PostBody, writeSucceeds: bool, putAccepted: bool) returns (response: PostResponse)
      modifies this`file, this`mirror
      ensures body.Fields? && writeSucceeds ==>
                response == PostResponse(200, Success) &&
                file == Some(Updated(Get(old(file)), Key(body.email), body.usedIndexes)) &&
                mirror == (if MirrorEnabled(githubToken) && putAccepted then file else old(mirror))
      ensures !(body.Fields? && writeSucceeds) ==>
                response == PostResponse(500, Failure("Failed to update")) &&
                file == old(file) && mirror == old(mirror)
    {
      if !body.Fields? {
        return PostResponse(500, Failure("Failed to update"));
      }
      var data: UsedCodes := map[];
      if file.Some? {
        data := file.value;
      }
      data := Updated(data, Key(body.email), body.usedIndexes);
      if !writeSucceeds {
        return PostResponse(500, Failure("Failed to update"));
      }
      file := Some(data);
      CommitToGitHub(data, putAccepted);
      response := PostResponse(200, Success);
    }
  }

  /** One click in an open dialog, end to end: the dialog toggles the
      position and posts its set, the store saves it, and a dialog opened
      afterwards for the same address loads exactly the set the first one
      shows, in the same order. Every other address keeps its entry. */
  method ToggleSaveReload(modal: BackupModal.Modal, store: Store, index: int, putAccepted: bool)
    returns (reloaded: seq<int>)
    requires modal.Valid() && modal.isOpen
    modifies modal, store
    ensures modal.usedCodes == BackupModal.Toggle(old(modal.usedCodes), index)
    ensures reloaded == modal.usedCodes
    ensures store.file.Some?
    ensures forall e :: e != modal.email ==>
              (e in store.file.value <==> e in Get(old(store.file))) &&
              (e in Get(old(store.file)) ==> store.file.value[e] == Get(old(store.file))[e])
  {
    var request := modal.ToggleUsed(index);
    var response := store.Post(Fields(Some(request.email), Some(request.usedIndexes)), true, putAccepted);
    modal.SaveSettled(BackupModal.Saved);
    var other := new BackupModal.Modal(modal.email, modal.backupCodes, true);
    BackupModal.FromArrayOfSet(request.usedIndexes);
    other.StartLoad();
    other.LoadUsedCodes(Some(Get(store.file)));
    reloaded := other.usedCodes;
  }
}
