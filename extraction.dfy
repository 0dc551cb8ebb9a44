/**
 * The extraction step: turn the rendered result list into article records,
 * in display order, dropping every element one of whose field lookups
 * raises. The DOM is an input: each element says, per field, either the
 * value the lookup returned or that the lookup raised.
 */
module Extraction {
  import opened Wrappers
  import opened TextSignals

  /** The outcome of one `find_element(...)` lookup on a result element. */
  datatype Lookup<T> = Raised | Found(value: T)

  /**
   * One `PageList-items-item` element: its title text, description text,
   * date text and image `src` attribute (which may be absent: `None`).
   */
  datatype NewsElement = NewsElement(
    title: Lookup<string>,
    description: Lookup<string>,
    date: Lookup<string>,
    imageSrc: Lookup<Option<string>>)

  /** One extracted record, with the two derived fields. */
  datatype Article = Article(
    title: string,
    date: string,
    description: string,
    imageSrc: Option<string>,
    searchCount: nat,
    containsMoney: bool)

  /** None of the four lookups raises. */
  predicate Readable(e: NewsElement)
  {
    e.title.Found? && e.description.Found? && e.date.Found? && e.imageSrc.Found?
  }

  /** The record built from a readable element. */
  function Classify(e: NewsElement, term: string): Article
    requires Readable(e)
  {
    var title, description := e.title.value, e.description.value;
    Article(title, e.date.value, description, e.imageSrc.value,
            SearchCount(title, description, term),
            ContainsMoney(title + description))
  }

  /** The records the extraction loop produces for `elements`, in order. */
  function Extract(elements: seq<NewsElement>, term: string): seq<Article>
  {
    if elements == [] then []
    else
      var last := elements[|elements| - 1];
      Extract(elements[..|elements| - 1], term) + (if Readable(last) then [Classify(last, term)] else [])
  }

  /**
   * `extract_news_data`: visit the elements in order; an element whose
   * lookups all succeed is classified and appended, any other is skipped
   * and the loop carries on.
   */
  method ExtractNewsData(elements: seq<NewsElement>, term: string) returns (news: seq<Article>)
    ensures news == Extract(elements, term)
  {
    news := [];
    for i := 0 to |elements|
      invariant news == Extract(elements[..i], term)
    {
      assert elements[..i + 1][..i] == elements[..i];
      var e := elements[i];
      if Readable(e) {
        news := news + [Classify(e, term)];
      }
    }
    assert elements[..|elements|] == elements;
  }

  // ---------------------------------------------------------------------
  // Properties of the extraction
  // ---------------------------------------------------------------------

  /** The indices of the readable elements, in increasing order. */
  ghost function KeptIndices(elements: seq<NewsElement>): seq<nat>
  {
    if elements == [] then []
    else
      var n := |elements| - 1;
      KeptIndices(elements[..n]) + (if Readable(elements[n]) then [n] else [])
  }

  lemma {:induction false} KeptIndicesInRange(elements: seq<NewsElement>)
    ensures forall k :: 0 <= k < |KeptIndices(elements)| ==> KeptIndices(elements)[k] < |elements|
  {
    if elements != [] {
      KeptIndicesInRange(elements[..|elements| - 1]);
    }
  }

  /** The k-th record is the classification of the k-th readable element. */
  lemma {:induction false} ExtractFollowsKeptIndices(elements: seq<NewsElement>, term: string)
    ensures |Extract(elements, term)| == |KeptIndices(elements)|
    ensures forall k :: 0 <= k < |KeptIndices(elements)| ==>
      KeptIndices(elements)[k] < |elements| && Readable(elements[KeptIndices(elements)[k]]) &&
      Extract(elements, term)[k] == Classify(elements[KeptIndices(elements)[k]], term)
  {
    KeptIndicesInRange(elements);
    if elements != [] {
      var n := |elements| - 1;
      var init := elements[..n];
      ExtractFollowsKeptIndices(init, term);
      KeptIndicesInRange(init);
      var K, K' := KeptIndices(elements), KeptIndices(init);
      var X, X' := Extract(elements, term), Extract(init, term);
      forall k | 0 <= k < |K|
        ensures Readable(elements[K[k]]) && X[k] == Classify(elements[K[k]], term)
      {
        if k < |K'| {
          assert K[k] == K'[k] && X[k] == X'[k];
          assert elements[K[k]] == init[K'[k]];
        }
      }
    }
  }

  /** The kept indices increase, and every readable element's index is among them. */
  lemma {:induction false} KeptIndicesOrderedComplete(elements: seq<NewsElement>)
    ensures forall k :: 0 < k < |KeptIndices(elements)| ==> KeptIndices(elements)[k - 1] < KeptIndices(elements)[k]
    ensures forall i :: 0 <= i < |elements| && Readable(elements[i]) ==> i in KeptIndices(elements)
  {
    if elements != [] {
      var n := |elements| - 1;
      var init := elements[..n];
      KeptIndicesOrderedComplete(init);
      KeptIndicesInRange(init);
      var K, K' := KeptIndices(elements), KeptIndices(init);
      forall k | 0 < k < |K| ensures K[k - 1] < K[k] {
        if k < |K'| {
          assert K[k - 1] == K'[k - 1] && K[k] == K'[k];
        } else {
          assert K[k - 1] == K'[k - 1] && K[k] == n;
        }
      }
      forall i | 0 <= i < |elements| && Readable(elements[i]) ensures i in K {
        if i < n {
          assert init[i] == elements[i];
          assert i in K';
        } else {
          assert K[|K| - 1] == n;
        }
      }
    }
  }

  /**
   * The output is the subsequence of readable elements, each turned into
   * its record: the k-th record comes from the k-th readable element, the
   * kept indices increase (display order is kept), and an element is kept
   * exactly when it is readable: its derived fields play no part.
   */
  lemma ExtractIsOrderedFilter(elements: seq<NewsElement>, term: string)
    ensures |Extract(elements, term)| == |KeptIndices(elements)|
    ensures forall k :: 0 <= k < |KeptIndices(elements)| ==>
      KeptIndices(elements)[k] < |elements| && Readable(elements[KeptIndices(elements)[k]]) &&
      Extract(elements, term)[k] == Classify(elements[KeptIndices(elements)[k]], term)
    ensures forall k :: 0 < k < |KeptIndices(elements)| ==> KeptIndices(elements)[k - 1] < KeptIndices(elements)[k]
    ensures forall i :: 0 <= i < |elements| ==> (i in KeptIndices(elements) <==> Readable(elements[i]))
  {
    ExtractFollowsKeptIndices(elements, term);
    KeptIndicesOrderedComplete(elements);
    var K := KeptIndices(elements);
    forall i | 0 <= i < |elements| && i in K ensures Readable(elements[i]) {
      var k :| 0 <= k < |K| && K[k] == i;
    }
  }

  /** No more records than elements; exactly as many when every element is readable. */
  lemma {:induction false} ExtractLength(elements: seq<NewsElement>, term: string)
    ensures |Extract(elements, term)| <= |elements|
    ensures |Extract(elements, term)| == |elements| <==> forall i :: 0 <= i < |elements| ==> Readable(elements[i])
  {
    if elements != [] {
      var n := |elements| - 1;
      var init := elements[..n];
      ExtractLength(init, term);
      if forall i :: 0 <= i < n ==> Readable(init[i]) {
        assert forall i :: 0 <= i < n ==> Readable(elements[i]) by {
          forall i | 0 <= i < n ensures Readable(elements[i]) {
            assert init[i] == elements[i];
          }
        }
      } else {
        var i :| 0 <= i < n && !Readable(init[i]);
        assert !Readable(elements[i]);
      }
    }
  }

  /** An empty result list gives no records. */
  lemma NoElementsNoRecords(term: string)
    ensures Extract([], term) == []
  {
  }

  /** Extraction of a concatenation is the concatenation of the extractions. */
  lemma {:induction false} ExtractAppend(a: seq<NewsElement>, b: seq<NewsElement>, term: string)
    ensures Extract(a + b, term) == Extract(a, term) + Extract(b, term)
    decreases |b|
  {
    if b == [] {
      assert a + b == a;
    } else {
      var n := |b| - 1;
      assert (a + b)[..|a + b| - 1] == a + b[..n];
      ExtractAppend(a, b[..n], term);
    }
  }

  /** An unreadable element is dropped and its siblings are extracted as if it were not there. */
  lemma UnreadableIsIsolated(before: seq<NewsElement>, bad: NewsElement, after: seq<NewsElement>, term: string)
    requires !Readable(bad)
    ensures Extract(before + [bad] + after, term) == Extract(before, term) + Extract(after, term)
  {
    ExtractAppend(before + [bad], after, term);
    ExtractAppend(before, [bad], term);
    assert [bad][..0] == [];
    assert Extract([bad], term) == [];
    assert Extract(before + [bad], term) == Extract(before, term);
  }

  /**
   * Whether an element is kept depends only on its lookups: neither the
   * search count nor the money flag (nor the term) decides it, and the
   * four copied fields are the values read.
   */
  lemma {:induction false} KeepingIgnoresSignals(elements: seq<NewsElement>, term: string, term': string)
    ensures |Extract(elements, term)| == |Extract(elements, term')|
    ensures forall k :: 0 <= k < |Extract(elements, term)| ==>
      var a, a' := Extract(elements, term)[k], Extract(elements, term')[k];
      a.title == a'.title && a.date == a'.date && a.description == a'.description && a.imageSrc == a'.imageSrc
  {
    if elements != [] {
      KeepingIgnoresSignals(elements[..|elements| - 1], term, term');
    }
  }
}
