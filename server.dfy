/**
 * The server side of synchronisation: turning the posts a fetch returned into quotes,
 * and merging them into the local list. Only records with no local match on both
 * text and category are appended; local records are never replaced or reordered.
 */
module Server {
  import opened Quotes

  /** The part of a remote post the mapping reads; its other fields are ignored. */
  datatype Post = Post(title: string)

  /** What a fetch produced: the decoded list of posts, or a transport or decoding failure. */
  datatype FetchResult = Fetched(posts: seq<Post>) | FetchFailed

  /** How many remote items one fetch keeps. */
  const MaxServerQuotes: nat := 10

  /** The category every remote-derived quote is filed under. */
  const ServerCategory: string := "Server"

  /** Each post becomes a quote whose text is the post's title, filed under the server category. */
  function PostsToQuotes(posts: seq<Post>): (qs: seq<Quote>)
    ensures |qs| == |posts|
    ensures forall i :: 0 <= i < |qs| ==> qs[i] == Quote(posts[i].title, ServerCategory)
  {
    if posts == [] then [] else [Quote(posts[0].title, ServerCategory)] + PostsToQuotes(posts[1..])
  }

  /**
   * The server quotes of one fetch: the first ten posts, in order, mapped to quotes.
   * A failed fetch gives no quotes at all.
   */
  function FetchQuotesFromServer(result: FetchResult): (qs: seq<Quote>)
    ensures |qs| <= MaxServerQuotes
    ensures result.FetchFailed? ==> qs == []
    ensures result.Fetched? ==>
      && |qs| == (if |result.posts| < MaxServerQuotes then |result.posts| else MaxServerQuotes)
      && forall i :: 0 <= i < |qs| ==> qs[i] == Quote(result.posts[i].title, ServerCategory)
  {
    match result
    case FetchFailed => []
    case Fetched(posts) =>
      PostsToQuotes(if |posts| < MaxServerQuotes then posts else posts[..MaxServerQuotes])
  }

  /** `a` and `b` agree on both text and category. */
  predicate Matches(a: Quote, b: Quote) {
    a.text == b.text && a.category == b.category
  }

  /** Some local quote matches `q` on both fields; that is, `q` is already in `local`. */
  predicate HasMatch(local: seq<Quote>, q: Quote)
    ensures HasMatch(local, q) <==> q in local
  {
    exists i :: 0 <= i < |local| && Matches(local[i], q)
  }

  /**
   * The server quotes with no match in `local`, in server order. Server quotes are
   * compared with `local` only, not with each other, so a record the server sends
   * twice is kept twice.
   */
  function NewServerQuotes(local: seq<Quote>, server: seq<Quote>): (added: seq<Quote>)
    ensures |added| <= |server|
    ensures forall q :: q in added <==> q in server && q !in local
  {
    if server == [] then []
    else
      (if HasMatch(local, server[0]) then [] else [server[0]]) + NewServerQuotes(local, server[1..])
  }

  /** The list a sync leaves: the local quotes, in place, followed by the new server quotes. */
  function Merge(local: seq<Quote>, server: seq<Quote>): (merged: seq<Quote>)
    ensures |local| <= |merged| && merged[..|local|] == local
    ensures forall q :: q in merged <==> q in local || q in server
  {
    local + NewServerQuotes(local, server)
  }

  /** Selecting new server quotes keeps server order: it distributes over concatenation. */
  lemma {:induction false} NewServerQuotesAppend(local: seq<Quote>, a: seq<Quote>, b: seq<Quote>)
    ensures NewServerQuotes(local, a + b) == NewServerQuotes(local, a) + NewServerQuotes(local, b)
  {
    if a != [] {
      var ab := a + b;
      var head := if HasMatch(local, a[0]) then [] else [a[0]];
      assert ab[0] == a[0] && ab[1..] == a[1..] + b;
      assert NewServerQuotes(local, ab) == head + NewServerQuotes(local, ab[1..]);
      assert NewServerQuotes(local, a) == head + NewServerQuotes(local, a[1..]);
      NewServerQuotesAppend(local, a[1..], b);
    } else {
      assert a + b == b;
    }
  }

  /** Every copy of a server quote with no local match is appended, and no copy of any other quote. */
  lemma {:induction false} NewServerQuotesMultiplicity(local: seq<Quote>, server: seq<Quote>, q: Quote)
    ensures multiset(NewServerQuotes(local, server))[q] == if q in local then 0 else multiset(server)[q]
  {
    if server != [] {
      var rest := server[1..];
      assert multiset(server) == multiset([server[0]]) + multiset(rest) by {
        assert server == [server[0]] + rest;
      }
      NewServerQuotesMultiplicity(local, rest, q);
    }
  }

  /** Nothing is new exactly when every server quote already has a local match. */
  lemma NothingNewIffAllMatched(local: seq<Quote>, server: seq<Quote>)
    ensures NewServerQuotes(local, server) == [] <==> forall q :: q in server ==> HasMatch(local, q)
  {
  }

  /** A sync with nothing new leaves the list as it was. */
  lemma {:induction false} MergeUnchangedWhenAllMatched(local: seq<Quote>, server: seq<Quote>)
    requires forall q :: q in server ==> q in local
    ensures Merge(local, server) == local
  {
    NothingNewIffAllMatched(local, server);
  }

  /** Syncing twice with the same batch: the second merge finds nothing new and changes nothing. */
  lemma {:induction false} MergeIdempotent(local: seq<Quote>, server: seq<Quote>)
    ensures NewServerQuotes(Merge(local, server), server) == []
    ensures Merge(Merge(local, server), server) == Merge(local, server)
  {
    var merged := Merge(local, server);
    forall q | q in server ensures HasMatch(merged, q) {
      assert q in merged;
    }
    NothingNewIffAllMatched(merged, server);
  }

  /** A batch free of repeats merged into a list free of repeats leaves a list free of repeats. */
  lemma {:induction false} MergeKeepsNoDuplicates(local: seq<Quote>, server: seq<Quote>)
    requires NoDuplicates(local) && NoDuplicates(server)
    ensures NoDuplicates(Merge(local, server))
  {
    NewServerQuotesNoDuplicates(local, server);
    var added := NewServerQuotes(local, server);
    var merged := Merge(local, server);
    forall i, j | 0 <= i < j < |merged| ensures merged[i] != merged[j] {
      if j >= |local| {
        assert merged[j] == added[j - |local|];
        assert merged[j] in added;
        if i < |local| {
          assert merged[i] in local;
        } else {
          assert merged[i] == added[i - |local|];
        }
      }
    }
  }

  lemma {:induction false} NewServerQuotesNoDuplicates(local: seq<Quote>, server: seq<Quote>)
    requires NoDuplicates(server)
    ensures NoDuplicates(NewServerQuotes(local, server))
  {
    if server != [] {
      var rest := server[1..];
      assert NoDuplicates(rest) by {
        forall i, j | 0 <= i < j < |rest| ensures rest[i] != rest[j] {
          assert rest[i] == server[i + 1] && rest[j] == server[j + 1];
        }
      }
      NewServerQuotesNoDuplicates(local, rest);
      var tail := NewServerQuotes(local, rest);
      assert server[0] !in rest by {
        forall k | 0 <= k < |rest| ensures rest[k] != server[0] {
          assert rest[k] == server[k + 1];
        }
      }
      assert server[0] !in tail;
    }
  }

  /** Merging well-formed server quotes into a well-formed list leaves a well-formed list. */
  lemma {:induction false} MergeKeepsWellFormed(local: seq<Quote>, server: seq<Quote>)
    requires AllWellFormed(local) && AllWellFormed(server)
    ensures AllWellFormed(Merge(local, server))
  {
    var merged := Merge(local, server);
    forall i | 0 <= i < |merged| ensures WellFormed(merged[i]) {
      if i < |local| {
        assert merged[i] == local[i];
      } else {
        assert merged[i] in server;
      }
    }
  }

  /** Records repeated inside one batch are all appended: the merge does not dedup the batch itself. */
  lemma RepeatedServerRecordIsKept()
    ensures Merge([], [Quote("t", ServerCategory), Quote("t", ServerCategory)])
         == [Quote("t", ServerCategory), Quote("t", ServerCategory)]
  {
  }

  /** A record present on both sides ends up in the list once; a distinct one is appended. */
  lemma MergeExamples()
    ensures Merge([Quote("A", "X")], [Quote("A", "X")]) == [Quote("A", "X")]
    ensures Merge([Quote("A", "X")], [Quote("B", "Server")]) == [Quote("A", "X"), Quote("B", "Server")]
  {
  }
}
