/**
 * Reductions over session durations (second counts) and the "most practiced"
 * instrument or piece shown on the instrument and piece list pages.
 */
module MostPracticed {
  import opened Wrappers

  /** An instrument or a piece, with the durations of the sessions that refer to it. */
  datatype Entity = Entity(name: string, sessions: seq<nat>)

  /** The plain sum of a list of durations (0 for none). */
  function Total(durations: seq<nat>): nat {
    if durations == [] then 0 else Total(durations[..|durations| - 1]) + durations[|durations| - 1]
  }

  /** Splitting a list of sessions splits their total. */
  lemma {:induction false} TotalOfConcat(a: seq<nat>, b: seq<nat>)
    ensures Total(a + b) == Total(a) + Total(b)
    decreases |b|
  {
    if b != [] {
      var b' := b[..|b| - 1];
      assert (a + b)[..|a + b| - 1] == a + b';
      assert (a + b)[|a + b| - 1] == b[|b| - 1];
      TotalOfConcat(a, b');
    } else {
      assert a + b == a;
    }
  }

  /** Every single session is at most the total of the sessions it belongs to. */
  lemma {:induction false} TotalBoundsEachSession(durations: seq<nat>, i: nat)
    requires i < |durations|
    ensures durations[i] <= Total(durations)
    decreases |durations|
  {
    if i < |durations| - 1 {
      TotalBoundsEachSession(durations[..|durations| - 1], i);
    }
  }

  /** The database `Sum` aggregate: absent when there are no sessions. */
  function SumDurations(durations: seq<nat>): (r: Option<nat>)
    ensures r.None? <==> durations == []
    ensures r.Some? ==> r.value == Total(durations)
  {
    if durations == [] then None else Some(Total(durations))
  }

  /** The database `Max` aggregate: absent when there are no sessions. */
  function MaxDuration(durations: seq<nat>): (r: Option<nat>)
    ensures r.None? <==> durations == []
    ensures r.Some? ==> r.value in durations
    ensures r.Some? ==> forall i :: 0 <= i < |durations| ==> durations[i] <= r.value
  {
    if durations == [] then None
    else
      var rest := MaxDuration(durations[1..]);
      if rest.None? || durations[0] >= rest.value then Some(durations[0])
      else
        assert forall i :: 1 <= i < |durations| ==> durations[i] == durations[1..][i - 1];
        rest
  }

  /** Entity `i` is the first one whose sessions add up to `hours`. */
  predicate IsFirstWithTotal(entities: seq<Entity>, i: nat, hours: nat)
    requires i < |entities|
  {
    Total(entities[i].sessions) == hours &&
    forall j :: 0 <= j < i ==> Total(entities[j].sessions) < hours
  }

  /**
   * What the "most practiced" pair means: `hours` is at least every entity's
   * total; a positive `hours` comes with the name of the first entity reaching
   * it; and when nothing exceeds zero the pair is ("", 0).
   */
  predicate IsMostPracticed(entities: seq<Entity>, name: string, hours: nat) {
    (forall j :: 0 <= j < |entities| ==> Total(entities[j].sessions) <= hours) &&
    (hours == 0 ==> name == "") &&
    (hours > 0 ==> exists i :: 0 <= i < |entities| && IsFirstWithTotal(entities, i, hours) && name == entities[i].name)
  }

  /** The scan over the entities: skips those without sessions, keeps the strictly largest total. */
  method GetMostPracticed(entities: seq<Entity>) returns (name: string, hours: nat)
    ensures IsMostPracticed(entities, name, hours)
  {
    name := "";
    hours := 0;
    for k := 0 to |entities|
      invariant forall j :: 0 <= j < k ==> Total(entities[j].sessions) <= hours
      invariant hours == 0 ==> name == ""
      invariant hours > 0 ==> exists i :: 0 <= i < k && IsFirstWithTotal(entities, i, hours) && name == entities[i].name
    {
      var currentSum := SumDurations(entities[k].sessions);
      if currentSum.None? {
        continue;
      }
      if currentSum.value > hours {
        hours := currentSum.value;
        name := entities[k].name;
        assert IsFirstWithTotal(entities, k, hours);
      }
    }
  }

  /** The meaning above leaves no choice: it determines the pair completely. */
  lemma IsMostPracticedUnique(entities: seq<Entity>, n1: string, h1: nat, n2: string, h2: nat)
    requires IsMostPracticed(entities, n1, h1) && IsMostPracticed(entities, n2, h2)
    ensures n1 == n2 && h1 == h2
  {
  }

  /** With no entities, or none that has practice time, the pair is ("", 0). */
  lemma NothingPracticed(entities: seq<Entity>, name: string, hours: nat)
    requires forall j :: 0 <= j < |entities| ==> Total(entities[j].sessions) == 0
    requires IsMostPracticed(entities, name, hours)
    ensures name == "" && hours == 0
  {
  }

  /** On a tie the entity listed first keeps the title. */
  lemma TieGoesToFirst(name: string, hours: nat)
    requires IsMostPracticed([Entity("Piano", [3600, 3600]), Entity("Violin", [7200]), Entity("Cello", [])], name, hours)
    ensures name == "Piano" && hours == 7200
  {
    var es := [Entity("Piano", [3600, 3600]), Entity("Violin", [7200]), Entity("Cello", [])];
    assert Total(es[0].sessions) == 7200 by {
      assert [3600, 3600][..1] == [3600];
    }
    assert Total(es[1].sessions) == 7200 by {
      assert [7200][..0] == [];
    }
    assert Total(es[2].sessions) == 0;
    assert IsFirstWithTotal(es, 0, 7200);
    IsMostPracticedUnique(es, name, hours, "Piano", 7200);
  }
}
