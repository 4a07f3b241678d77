/** The credential manager's pending sign-out task: it collects the origins
    being signed out of, and when the password store returns its forms it
    marks every form of one of those origins "skip zero-click", writes each
    such form back to the store, and then tells its delegate that signing
    out is done. Origins are kept as their URL spec strings. */
module PendingSignedOutTask {

  /** The part of a stored password form that signing out reads or changes. */
  datatype PasswordForm = PasswordForm(
    originSpec: string,
    usernameValue: string,
    skipZeroClick: bool)

  datatype SignedOutTask = SignedOutTask(origins: set<string>)

  /** The calls made on the store and on the delegate, in order. */
  datatype DelegateCall = UpdateLogin(form: PasswordForm) | DoneSigningOut

  /** The constructor records the one origin it is given. */
  function NewSignedOutTask(origin: string): (t: SignedOutTask)
    ensures forall o :: o in t.origins <==> o == origin
  {
    SignedOutTask({origin})
  }

  /** Adds an origin; adding one already present changes nothing. */
  function AddOrigin(t: SignedOutTask, origin: string): (r: SignedOutTask)
    ensures forall o :: o in r.origins <==> o in t.origins || o == origin
    ensures origin in t.origins ==> r == t
  {
    SignedOutTask(t.origins + {origin})
  }

  /** Reference definition: the forms written back for `results`, in result
      order. */
  function SignedOutUpdates(origins: set<string>, results: seq<PasswordForm>): seq<PasswordForm>
    decreases |results|
  {
    if |results| == 0 then []
    else
      (if results[0].originSpec in origins then [results[0].(skipZeroClick := true)] else [])
      + SignedOutUpdates(origins, results[1..])
  }

  /** Handles the store's results: one UpdateLogin per form whose origin is
      being signed out, with skip-zero-click set, in result order, then one
      DoneSigningOut, even when nothing matched. */
  method OnGetPasswordStoreResults(t: SignedOutTask, results: seq<PasswordForm>) returns (calls: seq<DelegateCall>)
    ensures |calls| >= 1 && calls[|calls| - 1] == DoneSigningOut
    ensures forall i :: 0 <= i < |calls| - 1 ==> calls[i].UpdateLogin?
    ensures |calls| - 1 == |SignedOutUpdates(t.origins, results)|
    ensures forall i :: 0 <= i < |calls| - 1 ==> calls[i].form == SignedOutUpdates(t.origins, results)[i]
  {
    var updates: seq<PasswordForm> := [];
    calls := [];
    var i := 0;
    while i < |results|
      invariant 0 <= i <= |results|
      invariant |calls| == |updates|
      invariant forall k :: 0 <= k < |calls| ==> calls[k] == UpdateLogin(updates[k])
      invariant updates + SignedOutUpdates(t.origins, results[i..]) == SignedOutUpdates(t.origins, results)
    {
      var form := results[i];
      assert results[i..] == [form] + results[i + 1..];
      if form.originSpec in t.origins {
        var marked := form.(skipZeroClick := true);
        updates := updates + [marked];
        calls := calls + [UpdateLogin(marked)];
      }
      i := i + 1;
    }
    assert updates == SignedOutUpdates(t.origins, results);
    calls := calls + [DoneSigningOut];
  }

  /** Exactly the forms of signed-out origins are written back: each such
      form appears with skip-zero-click set, and every written form is a
      result form of a signed-out origin with only that flag changed. */
  lemma {:induction false} UpdatesAreExactlyMatchingForms(origins: set<string>, results: seq<PasswordForm>)
    ensures forall i :: 0 <= i < |results| && results[i].originSpec in origins ==>
      results[i].(skipZeroClick := true) in SignedOutUpdates(origins, results)
    ensures forall g :: g in SignedOutUpdates(origins, results) ==>
      g.skipZeroClick && g.originSpec in origins &&
      exists i :: 0 <= i < |results| && results[i].originSpec in origins && g == results[i].(skipZeroClick := true)
    ensures |SignedOutUpdates(origins, results)| <= |results|
    ensures (forall i :: 0 <= i < |results| ==> results[i].originSpec !in origins) ==>
      SignedOutUpdates(origins, results) == []
    decreases |results|
  {
    if |results| > 0 {
      UpdatesAreExactlyMatchingForms(origins, results[1..]);
      var rest := SignedOutUpdates(origins, results[1..]);
      forall i | 0 <= i < |results| && results[i].originSpec in origins
        ensures results[i].(skipZeroClick := true) in SignedOutUpdates(origins, results)
      {
        if i > 0 {
          assert results[1..][i - 1] == results[i];
        }
      }
      forall g | g in SignedOutUpdates(origins, results)
        ensures exists i :: 0 <= i < |results| && results[i].originSpec in origins && g == results[i].(skipZeroClick := true)
      {
        if g in rest {
          var j :| 0 <= j < |results[1..]| && results[1..][j].originSpec in origins && g == results[1..][j].(skipZeroClick := true);
          assert results[j + 1] == results[1..][j];
        }
      }
    }
  }
}
