/**
 Laws of the `ReadResult` combinators: channel-wise order preservation,
 the empty result as identity, associativity, and that no combinator ever
 drops a diagnostic message.
 */
module ReadResultLaws {
  import opened ReadResults

  lemma ChannelsOfAppend<E, X>(a: seq<ReadResult<E, X>>, b: seq<ReadResult<E, X>>)
    ensures ElementsOf(a + b) == ElementsOf(a) + ElementsOf(b)
    ensures ExtraOf(a + b) == ExtraOf(a) + ExtraOf(b)
    ensures MessagesOf(a + b) == MessagesOf(a) + MessagesOf(b)
  {
  }

  lemma ChannelsOfPair<E, X>(a: ReadResult<E, X>, b: ReadResult<E, X>)
    ensures Concat([a, b]) == ReadResult(a.elements + b.elements, a.extra + b.extra, a.messages + b.messages)
  {
    assert ElementsOf([a, b]) == [a.elements, b.elements];
    assert ExtraOf([a, b]) == [a.extra, b.extra];
    assert MessagesOf([a, b]) == [a.messages, b.messages];
    FlattenPair(a.elements, b.elements);
    FlattenPair(a.extra, b.extra);
    FlattenPair(a.messages, b.messages);
  }

  /** Concatenating nothing gives the all-empty result. */
  lemma ConcatOfNothing<E, X>()
    ensures Concat<E, X>([]) == Empty()
  {
  }

  /** A single result is its own concatenation. */
  lemma ConcatSingleton<E, X>(r: ReadResult<E, X>)
    ensures Concat([r]) == r
  {
    assert ElementsOf([r]) == [r.elements];
    assert ExtraOf([r]) == [r.extra];
    assert MessagesOf([r]) == [r.messages];
    FlattenSingleton(r.elements);
    FlattenSingleton(r.extra);
    FlattenSingleton(r.messages);
  }

  /** Concatenating a joined list is concatenating the concatenations of
      its two parts, channel by channel and in order. */
  lemma ConcatAppend<E, X>(a: seq<ReadResult<E, X>>, b: seq<ReadResult<E, X>>)
    ensures Concat(a + b) == Concat([Concat(a), Concat(b)])
    ensures Concat(a + b).elements == Concat(a).elements + Concat(b).elements
    ensures Concat(a + b).extra == Concat(a).extra + Concat(b).extra
    ensures Concat(a + b).messages == Concat(a).messages + Concat(b).messages
  {
    ChannelsOfAppend(a, b);
    FlattenAppend(ElementsOf(a), ElementsOf(b));
    FlattenAppend(ExtraOf(a), ExtraOf(b));
    FlattenAppend(MessagesOf(a), MessagesOf(b));
    ChannelsOfPair(Concat(a), Concat(b));
  }

  /** The empty result is a left and right identity of `Concat`. */
  lemma ConcatIdentity<E, X>(rs: seq<ReadResult<E, X>>)
    ensures Concat([Empty()] + rs) == Concat(rs)
    ensures Concat(rs + [Empty()]) == Concat(rs)
  {
    ConcatAppend([Empty()], rs);
    ConcatAppend(rs, [Empty()]);
    ConcatSingleton<E, X>(Empty());
  }

  lemma ConcatAssociative<E, X>(a: ReadResult<E, X>, b: ReadResult<E, X>, c: ReadResult<E, X>)
    ensures Concat([Concat([a, b]), c]) == Concat([a, Concat([b, c])])
  {
    ChannelsOfPair(a, b);
    ChannelsOfPair(b, c);
    ChannelsOfPair(Concat([a, b]), c);
    ChannelsOfPair(a, Concat([b, c]));
  }

  /** Order preservation: in every channel, the contribution of `rs[i]`
      appears unchanged between those of the results before and after it. */
  lemma ConcatAt<E, X>(rs: seq<ReadResult<E, X>>, i: nat)
    requires i < |rs|
    ensures Concat(rs).elements == Concat(rs[..i]).elements + rs[i].elements + Concat(rs[i + 1..]).elements
    ensures Concat(rs).extra == Concat(rs[..i]).extra + rs[i].extra + Concat(rs[i + 1..]).extra
    ensures Concat(rs).messages == Concat(rs[..i]).messages + rs[i].messages + Concat(rs[i + 1..]).messages
  {
    assert rs == rs[..i] + ([rs[i]] + rs[i + 1..]);
    ConcatAppend(rs[..i], [rs[i]] + rs[i + 1..]);
    ConcatAppend([rs[i]], rs[i + 1..]);
    ConcatSingleton(rs[i]);
  }

  /** `Concat` never drops and never invents a message. */
  lemma ConcatKeepsMessages<E, X>(rs: seq<ReadResult<E, X>>, m: Message)
    ensures m in Concat(rs).messages <==> exists i :: 0 <= i < |rs| && m in rs[i].messages
  {
    FlattenMember(MessagesOf(rs), m);
    if exists i :: 0 <= i < |MessagesOf(rs)| && m in MessagesOf(rs)[i] {
      var i :| 0 <= i < |MessagesOf(rs)| && m in MessagesOf(rs)[i];
      assert m in rs[i].messages;
    }
    if exists i :: 0 <= i < |rs| && m in rs[i].messages {
      var i :| 0 <= i < |rs| && m in rs[i].messages;
      assert m in MessagesOf(rs)[i];
    }
  }

  /** `Map` keeps both side channels, keeps a returned list as it is and
      wraps a single returned value into a one-element list. */
  lemma MapKeepsSideChannels<E, U, X>(r: ReadResult<E, X>, f: seq<E> -> OneOrMany<U>)
    ensures Map(r, f).extra == r.extra && Map(r, f).messages == r.messages
    ensures f(r.elements).One? ==> Map(r, f).elements == [f(r.elements).value]
    ensures f(r.elements).Many? ==> Map(r, f).elements == f(r.elements).values
  {
  }

  lemma MapIdentity<E, X>(r: ReadResult<E, X>)
    ensures Map(r, (xs: seq<E>) => Many(xs)) == r
  {
  }

  lemma MapComposition<E, U, V, X>(r: ReadResult<E, X>, f: seq<E> -> OneOrMany<U>, g: seq<U> -> OneOrMany<V>)
    ensures Map(Map(r, f), g) == Map(r, (xs: seq<E>) => g(AsList(f(xs))))
  {
  }

  /** `FlatMap` is the concatenation of this result, stripped of its
      elements, with the result of `f`: upstream extra items and messages
      come first and are never lost. */
  lemma FlatMapAsConcat<E, U, X>(r: ReadResult<E, X>, f: seq<E> -> ReadResult<U, X>)
    ensures FlatMap(r, f) == Concat([ReadResult([], r.extra, r.messages), f(r.elements)])
    ensures FlatMap(r, f).messages == r.messages + f(r.elements).messages
    ensures forall m :: m in r.messages ==> m in FlatMap(r, f).messages
  {
    ChannelsOfPair(ReadResult([], r.extra, r.messages), f(r.elements));
  }

  lemma FlatMapLeftIdentity<E, U, X>(xs: seq<E>, f: seq<E> -> ReadResult<U, X>)
    ensures FlatMap(Success(Many(xs)), f) == f(xs)
  {
  }

  lemma FlatMapRightIdentity<E, X>(r: ReadResult<E, X>)
    ensures FlatMap(r, (xs: seq<E>) => Success(Many(xs))) == r
  {
  }

  lemma FlatMapAssociative<E, U, V, X>(r: ReadResult<E, X>, f: seq<E> -> ReadResult<U, X>, g: seq<U> -> ReadResult<V, X>)
    ensures FlatMap(FlatMap(r, f), g) == FlatMap(r, (xs: seq<E>) => FlatMap(f(xs), g))
  {
  }

  /** `MapResults` is one computed element followed by the side channels of
      `first` and then of `second`, exactly as `Concat` would order them. */
  lemma MapResultsAsConcat<A, B, V, X>(first: ReadResult<A, X>, second: ReadResult<B, X>, f: (seq<A>, seq<B>) -> V)
    ensures MapResults(first, second, f)
         == Concat([ReadResult([f(first.elements, second.elements)], first.extra, first.messages),
                    ReadResult([], second.extra, second.messages)])
    ensures |MapResults(first, second, f).elements| == 1
  {
    ChannelsOfPair(ReadResult([f(first.elements, second.elements)], first.extra, first.messages),
                   ReadResult([], second.extra, second.messages));
  }

  /** `ToExtra` and `AppendExtra` move items between the element and extra
      channels without reordering, losing or duplicating them, and leave the
      messages alone. */
  lemma ToExtraMovesElements<T>(r: ReadResult<T, T>)
    ensures ToExtra(r).elements == []
    ensures ToExtra(r).extra == r.extra + r.elements
    ensures ToExtra(r).messages == r.messages
    ensures multiset(ToExtra(r).extra) == multiset(r.elements) + multiset(r.extra)
  {
    FlattenPair(r.extra, r.elements);
  }

  lemma AppendExtraMovesExtra<T>(r: ReadResult<T, T>)
    ensures AppendExtra(r).elements == r.elements + r.extra
    ensures AppendExtra(r).extra == []
    ensures AppendExtra(r).messages == r.messages
    ensures multiset(AppendExtra(r).elements) == multiset(r.elements) + multiset(r.extra)
  {
    FlattenPair(r.elements, r.extra);
  }

  lemma ToExtraIdempotent<T>(r: ReadResult<T, T>)
    ensures ToExtra(ToExtra(r)) == ToExtra(r)
  {
    ToExtraMovesElements(r);
    ToExtraMovesElements(ToExtra(r));
  }

  lemma AppendExtraIdempotent<T>(r: ReadResult<T, T>)
    ensures AppendExtra(AppendExtra(r)) == AppendExtra(r)
  {
    AppendExtraMovesExtra(r);
    AppendExtraMovesExtra(AppendExtra(r));
  }

  /** Hoisting a scope's items with `ToExtra` and releasing them again with
      `AppendExtra` gives back every item, earlier extra items first. */
  lemma AppendExtraAfterToExtra<T>(r: ReadResult<T, T>)
    ensures AppendExtra(ToExtra(r)) == ReadResult(r.extra + r.elements, [], r.messages)
  {
    ToExtraMovesElements(r);
    AppendExtraMovesExtra(ToExtra(r));
  }
}
