/** The entry repository of `app/adapters/entry-repository.ts`: the prefix list derived from
    a listing, and the partition of an upsert reply into saved keys and per-key errors. The
    HTTP calls are not modelled: what they returned is a parameter. */
module EntryRepository {
  import opened Wrappers
  import opened Strings
  import opened Domain

  // ----- retrieve -----

  /** The entries listed under a prefix and the prefixes offered for navigation. */
  datatype Listing = Listing(entries: seq<Entry>, prefixes: seq<string>)

  /** A directory marker: an entry whose key ends with `/`. */
  predicate IsDirectoryMarker(e: Entry) {
    EndsWith(e.key, "/")
  }

  /** `path + "/" + key` of every directory marker, in listing order. */
  function DirectoryPrefixes(entries: seq<Entry>): (prefixes: seq<string>)
    ensures |prefixes| <= |entries|
    decreases |entries|
  {
    if entries == [] then []
    else
      var last := entries[|entries| - 1];
      DirectoryPrefixes(entries[..|entries| - 1]) + if IsDirectoryMarker(last) then [IdOf(last)] else []
  }

  /** Directory prefixes of a concatenation are the concatenation of the directory prefixes:
      the order of the listing is kept. */
  lemma {:induction false} DirectoryPrefixesAppend(a: seq<Entry>, b: seq<Entry>)
    ensures DirectoryPrefixes(a + b) == DirectoryPrefixes(a) + DirectoryPrefixes(b)
    decreases |b|
  {
    if b == [] {
      assert a + b == a;
    } else {
      assert (a + b)[..|a + b| - 1] == a + b[..|b| - 1];
      DirectoryPrefixesAppend(a, b[..|b| - 1]);
    }
  }

  /** A prefix is listed exactly when some directory marker of the listing has that id. */
  lemma {:induction false} DirectoryPrefixesMembers(entries: seq<Entry>, p: string)
    ensures p in DirectoryPrefixes(entries) <==>
      exists i :: 0 <= i < |entries| && IsDirectoryMarker(entries[i]) && IdOf(entries[i]) == p
    decreases |entries|
  {
    if entries != [] {
      var init := entries[..|entries| - 1];
      DirectoryPrefixesMembers(init, p);
      assert forall i :: 0 <= i < |init| ==> init[i] == entries[i];
    }
  }

  /** `retrieve(request, prefix)`, with `listed` the listing under the prefix and
      `environments` the environment list the endpoint would return. */
  function Retrieve(prefix: Option<string>, listed: seq<Entry>, environments: seq<string>): (r: Listing)
    ensures prefix == None || prefix == Some("") ==> r == Listing([], environments)
    ensures prefix.Some? && prefix.value != "" ==> r.entries == listed
    ensures prefix.Some? && prefix.value != "" && (forall i :: 0 <= i < |listed| ==> !IsDirectoryMarker(listed[i])) ==>
      r.prefixes == [prefix.value]
    ensures prefix.Some? && prefix.value != "" && (exists i :: 0 <= i < |listed| && IsDirectoryMarker(listed[i])) ==>
      r.prefixes == DirectoryPrefixes(listed)
  {
    if prefix.None? || prefix.value == "" then Listing([], environments)
    else
      var markers := DirectoryPrefixes(listed);
      assert |markers| == 0 <==> forall i :: 0 <= i < |listed| ==> !IsDirectoryMarker(listed[i]) by {
        if |markers| > 0 {
          DirectoryPrefixesMembers(listed, markers[0]);
        }
        if exists i :: 0 <= i < |listed| && IsDirectoryMarker(listed[i]) {
          var i :| 0 <= i < |listed| && IsDirectoryMarker(listed[i]);
          DirectoryPrefixesMembers(listed, IdOf(listed[i]));
        }
      }
      Listing(listed, if |markers| == 0 then [prefix.value] else markers)
  }

  /** Under a non-empty prefix the prefix list is never empty: without directory markers it
      is the prefix itself, with some it is exactly their ids, in listing order. */
  lemma {:induction false} RetrievePrefixes(prefix: string, listed: seq<Entry>, environments: seq<string>)
    requires prefix != ""
    ensures |Retrieve(Some(prefix), listed, environments).prefixes| >= 1
    ensures (forall i :: 0 <= i < |listed| ==> !IsDirectoryMarker(listed[i])) ==>
      Retrieve(Some(prefix), listed, environments).prefixes == [prefix]
    ensures (exists i :: 0 <= i < |listed| && IsDirectoryMarker(listed[i])) ==>
      Retrieve(Some(prefix), listed, environments).prefixes == DirectoryPrefixes(listed)
    ensures forall p :: p in Retrieve(Some(prefix), listed, environments).prefixes ==>
      p == prefix || exists i :: 0 <= i < |listed| && IsDirectoryMarker(listed[i]) && IdOf(listed[i]) == p
  {
    if exists i :: 0 <= i < |listed| && IsDirectoryMarker(listed[i]) {
      var i :| 0 <= i < |listed| && IsDirectoryMarker(listed[i]);
      DirectoryPrefixesMembers(listed, IdOf(listed[i]));
      forall p | p in DirectoryPrefixes(listed)
        ensures exists i :: 0 <= i < |listed| && IsDirectoryMarker(listed[i]) && IdOf(listed[i]) == p
      {
        DirectoryPrefixesMembers(listed, p);
      }
    }
  }

  // ----- upsert -----

  /** One element of the upsert reply: the key and its error (`None` for a JSON null). */
  datatype UpsertResult = UpsertResult(key: string, error: Option<string>)

  /** The decoded reply body: a list of results, or an object with an optional `detail`. */
  datatype ReplyBody = ResultList(results: seq<UpsertResult>) | Object(detail: Option<string>)

  datatype PostReply = PostReply(status: int, body: ReplyBody)

  const UnknownError := "An unknown error occurred"

  /** The saved keys in reply order, and the error recorded per key. */
  datatype Outcome = Outcome(success: seq<string>, errors: map<string, string>)

  /** The loop over the result list: a null error appends the key, any other error is
      recorded under the key, replacing an earlier one. */
  function Partition(results: seq<UpsertResult>): (r: Outcome)
    ensures |r.success| <= |results|
    decreases |results|
  {
    if results == [] then Outcome([], map[])
    else
      var done := Partition(results[..|results| - 1]);
      var last := results[|results| - 1];
      match last.error
      case None => done.(success := done.success + [last.key])
      case Some(e) => done.(errors := done.errors[last.key := e])
  }

  /** The saved keys of a concatenation are those of each part, in order. */
  lemma {:induction false} PartitionSuccessAppend(a: seq<UpsertResult>, b: seq<UpsertResult>)
    ensures Partition(a + b).success == Partition(a).success + Partition(b).success
    decreases |b|
  {
    if b == [] {
      assert a + b == a;
    } else {
      assert (a + b)[..|a + b| - 1] == a + b[..|b| - 1];
      PartitionSuccessAppend(a, b[..|b| - 1]);
    }
  }

  /** A key is saved exactly when some result for it has a null error. */
  lemma {:induction false} PartitionSuccessMembers(results: seq<UpsertResult>, k: string)
    ensures k in Partition(results).success <==>
      exists i :: 0 <= i < |results| && results[i].key == k && results[i].error.None?
    decreases |results|
  {
    if results != [] {
      var init := results[..|results| - 1];
      PartitionSuccessMembers(init, k);
      assert forall i :: 0 <= i < |init| ==> init[i] == results[i];
    }
  }

  /** A key has an error exactly when some result for it carries one, and the error kept is
      that of the last such result. */
  lemma {:induction false} PartitionErrorsLastWins(results: seq<UpsertResult>, k: string)
    ensures k in Partition(results).errors <==>
      exists i :: 0 <= i < |results| && results[i].key == k && results[i].error.Some?
    ensures forall i ::
      (&& 0 <= i < |results| && results[i].key == k && results[i].error.Some?
       && (forall j :: i < j < |results| ==> results[j].key != k || results[j].error.None?))
      ==> k in Partition(results).errors && Partition(results).errors[k] == results[i].error.value
    decreases |results|
  {
    if results != [] {
      var init := results[..|results| - 1];
      PartitionErrorsLastWins(init, k);
      assert forall i :: 0 <= i < |init| ==> init[i] == results[i];
    }
  }

  /** The error message of a rejected request: the reply's `detail` when it is a non-empty
      string, otherwise the fixed fallback. */
  function RejectionMessage(body: ReplyBody): (message: string)
    ensures message != ""
    ensures message != UnknownError ==> body.Object? && body.detail == Some(message)
  {
    if body.Object? && body.detail.Some? && body.detail.value != "" then body.detail.value
    else UnknownError
  }

  /** `Post` throws an `ApiError` for a reply that is not ok: a status outside 200 to 299.
      `upsert` then never reaches its own status check. */
  predicate PostThrows(reply: PostReply) {
    !(200 <= reply.status < 300)
  }

  /** The outcome `upsert` reports for a reply, stated as a function: `None` when `Post`
      threw. */
  function UpsertOutcome(reply: PostReply): (r: Option<Outcome>)
    ensures r.None? <==> PostThrows(reply)
    ensures !PostThrows(reply) && reply.status != 200 && reply.status != 201 ==>
      r.Some? && r.value.success == [] && r.value.errors.Keys == {"message"}
    ensures (reply.status == 200 || reply.status == 201) && reply.body.Object? ==>
      r == Some(Outcome([], map[]))
  {
    if PostThrows(reply) then None
    else if reply.status != 200 && reply.status != 201 then
      Some(Outcome([], map["message" := RejectionMessage(reply.body)]))
    else if reply.body.ResultList? then Some(Partition(reply.body.results))
    else Some(Outcome([], map[]))
  }

  /** `upsert(payload, request)`: the call to `Post`, which throws on a reply that is not ok
      (`None`), the status check, then one pass over the result list. The payload only
      travels to the endpoint, whose reply is `reply`. */
  method Upsert(payload: seq<BatchItem>, reply: PostReply) returns (outcome: Option<Outcome>)
    ensures outcome == UpsertOutcome(reply)
  {
    if PostThrows(reply) {
      return None;
    }
    if reply.status != 200 && reply.status != 201 {
      return Some(Outcome([], map["message" := RejectionMessage(reply.body)]));
    }
    var success: seq<string> := [];
    var errors: map<string, string> := map[];
    if reply.body.ResultList? {
      var results := reply.body.results;
      for i := 0 to |results|
        invariant Outcome(success, errors) == Partition(results[..i])
      {
        assert results[..i + 1][..i] == results[..i];
        var result := results[i];
        match result.error {
          case None => success := success + [result.key];
          case Some(e) => errors := errors[result.key := e];
        }
      }
      assert results[..|results|] == results;
    }
    outcome := Some(Outcome(success, errors));
  }
}
