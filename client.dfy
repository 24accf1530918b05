/**
  Model of the client's integrity state machine (client/src/App.tsx): the
  four React state cells and the transitions that set them. The network is
  replaced by its answers: `GetData` is handed the record that GET `/`
  returned and `RecoverData` the list that GET `/history` returned, while
  `UpdateData` talks to a `Server.Store` directly, since it posts and then
  reloads whatever the store then holds.
*/
module Client {
  import opened Wrappers
  import opened JsString
  import Server

  const EmptyMessage := "Data cannot be empty!"
  const TooLongMessage := "Data too long. Must be less than 100 characters."
  const RecoveredMessage := "Previous version recovered successfully."
  const NoHistoryMessage := "No previous versions available."
  const TamperedMessage := "Warning: Data tampered with for testing purposes."
  const TamperSuffix := "_something"

  /** The message `validateInput` shows, or None when it passes the input. */
  function InputError(input: Option<string>): Option<string> {
    if input.None? || input.value == "" || Trim(input.value) == "" then Some(EmptyMessage)
    else if JsLength(input.value) > Server.MaxLength then Some(TooLongMessage)
    else None
  }

  /** `undefined`, "" and whitespace-only input are refused as empty before
      the length is looked at; a non-blank input is refused as too long
      exactly when it exceeds 100 code units; everything else passes. */
  lemma InputErrorSpec(input: Option<string>)
    ensures InputError(input).None? <==>
      input.Some? && !AllWhitespace(input.value) && JsLength(input.value) <= Server.MaxLength
    ensures InputError(input) == Some(EmptyMessage) <==> input.None? || AllWhitespace(input.value)
    ensures InputError(input) == Some(TooLongMessage) <==>
      input.Some? && !AllWhitespace(input.value) && JsLength(input.value) > Server.MaxLength
  {
    if input.Some? {
      TrimEmptyIff(input.value);
    }
  }

  /** The client refuses exactly the strings the server refuses, and for
      the same reason, so a submission that passes locally is stored. */
  lemma ClientMirrorsServer(s: string)
    ensures InputError(Some(s)).None? <==> Server.Check(Server.Str(s)).None?
    ensures InputError(Some(s)) == Some(EmptyMessage) <==>
            Server.Check(Server.Str(s)) == Some(Server.EmptyError)
    ensures InputError(Some(s)) == Some(TooLongMessage) <==>
            Server.Check(Server.Str(s)) == Some(Server.TooLongError)
  {
  }

  /** The React component's state. */
  class App {
    var data: string
    var errorMessage: string
    var originalHash: string
    var tampered: bool

    /** The `useState` initial values. */
    constructor ()
      ensures data == "" && errorMessage == "" && originalHash == "" && !tampered
    {
      data, errorMessage, originalHash, tampered := "", "", "", false;
    }

    /** `getData` once the response has arrived: show the fetched record,
        trust its hash, and clear the tamper flag and the message. */
    method GetData(fetched: Server.Record)
      modifies this
      ensures data == fetched.data && originalHash == fetched.hash
      ensures !tampered && errorMessage == ""
    {
      // the handler calls setData(data) twice; the second call changes nothing
      data := fetched.data;
      data := fetched.data;
      originalHash := fetched.hash;
      tampered := false;
      errorMessage := "";
    }

    /** `validateInput`: sets only the message, cleared when the input passes. */
    method ValidateInput(input: Option<string>) returns (ok: bool)
      modifies this`errorMessage
      ensures ok <==> InputError(input).None?
      ensures errorMessage == if ok then "" else InputError(input).value
    {
      if input.None? || input.value == "" || Trim(input.value) == "" {
        errorMessage := EmptyMessage;
        return false;
      }
      if JsLength(input.value) > Server.MaxLength {
        errorMessage := TooLongMessage;
        return false;
      }
      errorMessage := "";
      return true;
    }

    /** `updateData`: when the shown text fails validation nothing is sent
        and nothing is reloaded; otherwise it is posted to the store and the
        store's new current record is loaded, which is the sanitised text
        with its digest. */
    method UpdateData(store: Server.Store) returns (sent: bool)
      requires store.Valid()
      modifies this, store
      ensures store.Valid()
      ensures sent <==> InputError(Some(old(data))).None?
      ensures !sent ==>
        && store.State() == old(store.State())
        && data == old(data) && originalHash == old(originalHash) && tampered == old(tampered)
        && errorMessage == InputError(Some(old(data))).value
      ensures sent ==>
        && store.State() == Server.Step(store.digest, old(store.State()), Server.Str(old(data)))
        && data == Server.Sanitize(old(data)) && originalHash == store.digest(data)
        && store.versions[|store.versions| - 1] == Server.Record(data, originalHash)
        && !tampered && errorMessage == ""
    {
      var ok := ValidateInput(Some(data));
      if !ok {
        return false;
      }
      ClientMirrorsServer(data);
      var _ := store.Post(Server.Str(data));
      var current := store.GetCurrent();
      GetData(current);
      sent := true;
    }

    /** `verifyData` is a stub whose condition `1 === 1` always holds: it
        reports the data as verified and changes no state. */
    method VerifyData() returns (verified: bool)
      ensures verified
    {
      verified := true;
    }

    /** `recoverData` once the history has arrived: restore its newest
        record, or report that there is none and change nothing else. */
    method RecoverData(history: seq<Server.Record>)
      modifies this
      ensures history != [] ==>
        && data == history[|history| - 1].data && originalHash == history[|history| - 1].hash
        && !tampered && errorMessage == RecoveredMessage
      ensures history == [] ==>
        && data == old(data) && originalHash == old(originalHash) && tampered == old(tampered)
        && errorMessage == NoHistoryMessage
    {
      if |history| > 0 {
        var lastVersion := history[|history| - 1];
        data := lastVersion.data;
        originalHash := lastVersion.hash;
        errorMessage := RecoveredMessage;
        tampered := false;
      } else {
        errorMessage := NoHistoryMessage;
      }
    }

    /** `simulateTamperedData`: corrupt the shown text, keep the trusted hash. */
    method SimulateTamperedData()
      modifies this
      ensures data == old(data) + TamperSuffix && data != old(data)
      ensures originalHash == old(originalHash)
      ensures tampered && errorMessage == TamperedMessage
    {
      data := data + TamperSuffix;
      tampered := true;
      errorMessage := TamperedMessage;
    }
  }

  /** Load from a store holding at least one version, then tamper: the
      trusted hash is still the digest of the stored text while the shown
      text differs from it, which is what a hash comparison would catch. */
  method LoadThenTamper(app: App, store: Server.Store)
    requires store.Valid() && store.versions != []
    modifies app
    ensures store.State() == old(store.State())
    ensures app.originalHash == store.digest(store.data)
    ensures app.data == store.data + TamperSuffix && app.data != store.data
    ensures app.tampered && app.errorMessage == TamperedMessage
  {
    var current := store.GetCurrent();
    app.GetData(current);
    app.SimulateTamperedData();
  }

  /** The integrity round trip against a store holding at least one version:
      load, tamper, recover. The client ends showing the store's current
      text with a hash that is its digest, no longer flagged as tampered,
      and the store is untouched. */
  method TamperAndRecover(app: App, store: Server.Store)
    requires store.Valid() && store.versions != []
    modifies app
    ensures store.State() == old(store.State())
    ensures app.data == store.data && app.originalHash == store.hash
    ensures app.originalHash == store.digest(app.data)
    ensures !app.tampered && app.errorMessage == RecoveredMessage
  {
    var current := store.GetCurrent();
    app.GetData(current);
    app.SimulateTamperedData();
    var history := store.GetHistory();
    app.RecoverData(history);
  }
}
