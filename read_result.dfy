/**
 The three-channel result that the document reader threads through its
 recursive walk: the document elements produced so far, "extra" items that
 must be hoisted to an ancestor, and non-fatal diagnostic messages. Every
 combinator builds a fresh result by list concatenation; none can fail.
 */
module ReadResults {

  /** A non-fatal diagnostic. The table reader only ever emits warnings. */
  datatype Message = Warning(text: string)

  datatype ReadResult<E, X> = ReadResult(elements: seq<E>, extra: seq<X>, messages: seq<Message>)

  /** What a mapping function may hand back: a single value, which `Map`
      wraps into a one-element list, or a list, which it keeps as it is. */
  datatype OneOrMany<T> = One(value: T) | Many(values: seq<T>)

  function AsList<T>(v: OneOrMany<T>): seq<T>
  {
    match v
    case One(x) => [x]
    case Many(xs) => xs
  }

  function Empty<E, X>(): ReadResult<E, X>
  {
    ReadResult([], [], [])
  }

  // ---------------------------------------------------------------------
  // _concat: order-preserving flattening of a list of lists

  /** The in-order concatenation of the lists in `ss`. */
  function Flatten<T>(ss: seq<seq<T>>): seq<T>
  {
    if |ss| == 0 then [] else Flatten(ss[..|ss| - 1]) + ss[|ss| - 1]
  }

  /** `_concat`: appends every element of every list, in order, to a fresh list. */
  method ConcatLists<T>(values: seq<seq<T>>) returns (result: seq<T>)
    ensures result == Flatten(values)
  {
    result := [];
    var i := 0;
    while i < |values|
      invariant 0 <= i <= |values|
      invariant result == Flatten(values[..i])
    {
      var value := values[i];
      var j := 0;
      while j < |value|
        invariant 0 <= j <= |value|
        invariant result == Flatten(values[..i]) + value[..j]
      {
        result := result + [value[j]];
        j := j + 1;
      }
      assert values[..i + 1][..i] == values[..i];
      i := i + 1;
    }
    assert values[..|values|] == values;
  }

  lemma {:induction false} FlattenAppend<T>(a: seq<seq<T>>, b: seq<seq<T>>)
    ensures Flatten(a + b) == Flatten(a) + Flatten(b)
    decreases |b|
  {
    if |b| == 0 {
      assert a + b == a;
    } else {
      var b' := b[..|b| - 1];
      assert (a + b)[..|a + b| - 1] == a + b';
      FlattenAppend(a, b');
    }
  }

  lemma FlattenSingleton<T>(a: seq<T>)
    ensures Flatten([a]) == a
  {
    assert [a][..0] == [];
    calc {
      Flatten([a]);
      Flatten([a][..0]) + a;
      Flatten<T>([]) + a;
    }
  }

  lemma FlattenPair<T>(a: seq<T>, b: seq<T>)
    ensures Flatten([a, b]) == a + b
  {
    assert [a, b][..1] == [a];
    FlattenSingleton(a);
  }

  /** Each list of `ss` sits, unchanged, between the flattening of the lists
      before it and the flattening of the lists after it. */
  lemma {:induction false} FlattenSplit<T>(ss: seq<seq<T>>, i: nat)
    requires i < |ss|
    ensures Flatten(ss) == Flatten(ss[..i]) + ss[i] + Flatten(ss[i + 1..])
  {
    assert ss == ss[..i] + [ss[i]] + ss[i + 1..];
    FlattenAppend(ss[..i] + [ss[i]], ss[i + 1..]);
    FlattenAppend(ss[..i], [ss[i]]);
    assert [ss[i]][..0] == [];
  }

  /** Flattening loses and invents nothing. */
  lemma {:induction false} FlattenMember<T>(ss: seq<seq<T>>, x: T)
    ensures x in Flatten(ss) <==> exists i :: 0 <= i < |ss| && x in ss[i]
    decreases |ss|
  {
    if |ss| != 0 {
      var init := ss[..|ss| - 1];
      FlattenMember(init, x);
      if x in Flatten(ss) && x !in ss[|ss| - 1] {
        var i :| 0 <= i < |init| && x in init[i];
        assert x in ss[i];
      }
      if exists i :: 0 <= i < |ss| && x in ss[i] {
        var i :| 0 <= i < |ss| && x in ss[i];
        if i < |ss| - 1 {
          assert x in init[i];
        }
      }
    }
  }

  lemma {:induction false} FlattenLength<T>(ss: seq<seq<T>>)
    ensures |Flatten(ss)| == TotalLength(ss)
    decreases |ss|
  {
    if |ss| != 0 {
      FlattenLength(ss[..|ss| - 1]);
      TotalLengthSnoc(ss[..|ss| - 1], ss[|ss| - 1]);
      assert ss[..|ss| - 1] + [ss[|ss| - 1]] == ss;
    }
  }

  function TotalLength<T>(ss: seq<seq<T>>): nat
  {
    if |ss| == 0 then 0 else |ss[0]| + TotalLength(ss[1..])
  }

  lemma {:induction false} TotalLengthSnoc<T>(ss: seq<seq<T>>, s: seq<T>)
    ensures TotalLength(ss + [s]) == TotalLength(ss) + |s|
    decreases |ss|
  {
    if |ss| == 0 {
      assert (ss + [s])[1..] == [];
    } else {
      assert (ss + [s])[1..] == ss[1..] + [s];
      TotalLengthSnoc(ss[1..], s);
    }
  }

  // ---------------------------------------------------------------------
  // The combinators of _ReadResult

  function ElementsOf<E, X>(results: seq<ReadResult<E, X>>): seq<seq<E>>
  {
    seq(|results|, i requires 0 <= i < |results| => results[i].elements)
  }

  function ExtraOf<E, X>(results: seq<ReadResult<E, X>>): seq<seq<X>>
  {
    seq(|results|, i requires 0 <= i < |results| => results[i].extra)
  }

  function MessagesOf<E, X>(results: seq<ReadResult<E, X>>): seq<seq<Message>>
  {
    seq(|results|, i requires 0 <= i < |results| => results[i].messages)
  }

  /** `_ReadResult.concat`: each channel is the in-order concatenation of
      that channel over the inputs. */
  function Concat<E, X>(results: seq<ReadResult<E, X>>): ReadResult<E, X>
  {
    ReadResult(Flatten(ElementsOf(results)), Flatten(ExtraOf(results)), Flatten(MessagesOf(results)))
  }

  /** `_ReadResult.map_results`: one element computed from both element
      lists; the side channels of `first` come before those of `second`. */
  function MapResults<A, B, V, X>(first: ReadResult<A, X>, second: ReadResult<B, X>, f: (seq<A>, seq<B>) -> V): ReadResult<V, X>
  {
    ReadResult([f(first.elements, second.elements)], first.extra + second.extra, first.messages + second.messages)
  }

  /** `_ReadResult.map`: `f` sees the whole element list at once. */
  function Map<E, U, X>(r: ReadResult<E, X>, f: seq<E> -> OneOrMany<U>): ReadResult<U, X>
  {
    ReadResult(AsList(f(r.elements)), r.extra, r.messages)
  }

  /** `_ReadResult.flat_map`: the new result's side channels are appended
      after this result's. */
  function FlatMap<E, U, X>(r: ReadResult<E, X>, f: seq<E> -> ReadResult<U, X>): ReadResult<U, X>
  {
    var result := f(r.elements);
    ReadResult(result.elements, r.extra + result.extra, r.messages + result.messages)
  }

  /** `_ReadResult.to_extra`: the elements move to the end of `extra`. */
  function ToExtra<T>(r: ReadResult<T, T>): ReadResult<T, T>
  {
    ReadResult([], Flatten([r.extra, r.elements]), r.messages)
  }

  /** `_ReadResult.append_extra`: `extra` moves to the end of the elements. */
  function AppendExtra<T>(r: ReadResult<T, T>): ReadResult<T, T>
  {
    ReadResult(Flatten([r.elements, r.extra]), [], r.messages)
  }

  /** `_success`: a single value is wrapped into a one-element list. */
  function Success<E, X>(v: OneOrMany<E>): ReadResult<E, X>
  {
    ReadResult(AsList(v), [], [])
  }

  /** `_elements_result_with_messages` */
  function ElementsResultWithMessages<E, X>(elements: seq<E>, messages: seq<Message>): ReadResult<E, X>
  {
    ReadResult(elements, [], messages)
  }
}
