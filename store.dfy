/**
 * The page's quote list as one object: it is seeded at start-up, grows by manual
 * entry and by synchronisation with the server, and is read to show a random quote
 * of the selected category.
 */
module Store {
  import opened Text
  import opened Quotes
  import opened Server

  /**
   * What storage held under the quote key at start-up, once decoded. `Absent` stands for
   * every falsy decoded value: no entry at all (decoded as null), or a stored null, false,
   * 0 or empty string. `Present` is a decoded list of quotes.
   */
  datatype Stored = Absent | Present(saved: seq<Quote>)

  /** Result of manual entry: refused for a missing field, or the quote that was appended (and posted). */
  datatype AddOutcome = MissingField | Added(quote: Quote)

  /** Result of one sync: nothing new (no notification), or how many server quotes were appended. */
  datatype SyncOutcome = UpToDate | NewQuotesAdded(count: nat)

  /** What the quote display shows: the "no quotes" message, or the text at a chosen index of the filtered list. */
  datatype Display = NoQuotesAvailable | Shown(index: nat, text: string)

  /** The four built-in quotes used when the stored value decodes to something falsy. */
  function DefaultQuotes(): (qs: seq<Quote>)
    ensures |qs| == 4
  {
    // The texts are written in pieces so that the verifier can read their first and last characters.
    [ Quote("The best way to get started is " + "to quit talking and begin doing.", "Motivation"),
      Quote("Life is what happens when " + "you're busy making other plans.", "Life"),
      Quote("Don't wait. The time will " + "never be just right.", "Motivation"),
      Quote("Happiness is not something ready-made. " + "It comes from your own actions.", "Happiness") ]
  }

  /** The built-in quotes satisfy the invariant manual entry keeps. */
  lemma DefaultQuotesWellFormed()
    ensures AllWellFormed(DefaultQuotes())
  {
    var qs := DefaultQuotes();
    assert WellFormed(qs[0]);
    assert WellFormed(qs[1]);
    assert WellFormed(qs[2]);
    assert WellFormed(qs[3]);
  }

  /** The built-in quotes offer three categories, in the order they first appear. */
  lemma DefaultCategories()
    ensures Categories(DefaultQuotes()) == ["Motivation", "Life", "Happiness"]
  {
    var qs := DefaultQuotes();
    assert qs[..1][..0] == [];
    assert qs[..2][..1] == qs[..1];
    assert qs[..3][..2] == qs[..2];
    assert qs[..4] == qs;
    assert Categories(qs[..1]) == ["Motivation"];
    assert Categories(qs[..2]) == ["Motivation", "Life"];
    assert Categories(qs[..3]) == ["Motivation", "Life"];
  }

  class QuoteStore {
    /** The quotes in the order they were added. */
    var quotes: seq<Quote>

    /** Start-up: the stored list when one was decoded (an empty one included), the built-in quotes when the decoded value is falsy. */
    constructor (stored: Stored)
      ensures quotes == if stored.Absent? then DefaultQuotes() else stored.saved
      ensures stored.Absent? ==> AllWellFormed(quotes) && |Categories(quotes)| == 3
    {
      DefaultQuotesWellFormed();
      DefaultCategories();
      quotes := if stored.Absent? then DefaultQuotes() else stored.saved;
    }

    /**
     * Manual entry. Both inputs are trimmed; if either is then empty nothing changes.
     * Otherwise the trimmed pair is appended, with no check for an existing copy, and
     * it is then listed under its category.
     */
    method AddQuote(text: string, category: string) returns (outcome: AddOutcome)
      modifies this
      ensures outcome == MissingField <==> AllWhitespace(text) || AllWhitespace(category)
      ensures outcome == MissingField ==> quotes == old(quotes)
      ensures outcome.Added? ==>
        && outcome.quote == Quote(Trim(text), Trim(category))
        && WellFormed(outcome.quote)
        && quotes == old(quotes) + [outcome.quote]
      ensures AllWellFormed(old(quotes)) ==> AllWellFormed(quotes)
    {
      var t := Trim(text);
      var c := Trim(category);
      if t == [] || c == [] {
        return MissingField;
      }
      var q := Quote(t, c);
      assert AllWellFormed(quotes) ==> AllWellFormed(quotes + [q]) by {
        if AllWellFormed(quotes) {
          forall i | 0 <= i < |quotes| + 1 ensures WellFormed((quotes + [q])[i]) {
            if i < |quotes| {
              assert (quotes + [q])[i] == quotes[i];
            }
          }
        }
      }
      quotes := quotes + [q];
      outcome := Added(q);
    }

    /**
     * One sync cycle with the given fetch result: the server quotes with no local match
     * are appended after the local ones, which stay as they were. The outcome reports
     * how many were appended, or that the list did not change.
     */
    method SyncQuotes(fetched: FetchResult) returns (outcome: SyncOutcome)
      modifies this
      ensures quotes == old(quotes) + NewServerQuotes(old(quotes), FetchQuotesFromServer(fetched))
      ensures outcome == UpToDate <==> quotes == old(quotes)
      ensures outcome.NewQuotesAdded? ==> 0 < outcome.count == |quotes| - |old(quotes)|
      ensures NewServerQuotes(quotes, FetchQuotesFromServer(fetched)) == []
      ensures NoDuplicates(old(quotes)) && NoDuplicates(FetchQuotesFromServer(fetched)) ==> NoDuplicates(quotes)
      ensures AllWellFormed(old(quotes)) && AllWellFormed(FetchQuotesFromServer(fetched)) ==> AllWellFormed(quotes)
    {
      var serverQuotes := FetchQuotesFromServer(fetched);
      var added := NewServerQuotes(quotes, serverQuotes);
      var merged := Merge(quotes, serverQuotes);
      assert NewServerQuotes(merged, serverQuotes) == [] by {
        MergeIdempotent(quotes, serverQuotes);
      }
      assert NoDuplicates(quotes) && NoDuplicates(serverQuotes) ==> NoDuplicates(merged) by {
        if NoDuplicates(quotes) && NoDuplicates(serverQuotes) {
          MergeKeepsNoDuplicates(quotes, serverQuotes);
        }
      }
      assert AllWellFormed(quotes) && AllWellFormed(serverQuotes) ==> AllWellFormed(merged) by {
        if AllWellFormed(quotes) && AllWellFormed(serverQuotes) {
          MergeKeepsWellFormed(quotes, serverQuotes);
        }
      }
      if |added| > 0 {
        quotes := merged;
        outcome := NewQuotesAdded(|added|);
      } else {
        outcome := UpToDate;
      }
    }

    /**
     * Shows a quote of the selected category, picked at random among that category's
     * quotes; the "no quotes" message when the category has none.
     */
    method ShowRandomQuote(selected: string) returns (display: Display)
      ensures display == NoQuotesAvailable <==> FilterByCategory(quotes, selected) == []
      ensures display.Shown? ==>
        var filtered := FilterByCategory(quotes, selected);
        display.index < |filtered| && display.text == filtered[display.index].text
          && filtered[display.index].category == selected
    {
      var filtered := FilterByCategory(quotes, selected);
      if |filtered| == 0 {
        return NoQuotesAvailable;
      }
      var i :| 0 <= i < |filtered|;
      assert filtered[i] in filtered;
      display := Shown(i, filtered[i].text);
    }
  }
}
