/** `AliasedGroup.get_command` (docpatch.py:42-58): a subcommand may be called by any
    prefix of its name that no other subcommand shares. The group is click's dictionary
    of registered commands; `list_commands` gives their names in sorted order, and
    `click.Group.get_command` is a dictionary lookup. */
module Commands {
  import opened Wrappers
  import Text

  /** Python's `<=` on `str`: lexicographic by code point, a proper prefix first. */
  predicate StrLe(a: string, b: string)
    decreases |a|
  {
    a == [] || (b != [] && (a[0] < b[0] || (a[0] == b[0] && StrLe(a[1..], b[1..]))))
  }

  lemma {:induction false} StrLeTotal(a: string, b: string)
    ensures StrLe(a, b) || StrLe(b, a)
    decreases |a|
  {
    if a != [] && b != [] && a[0] == b[0] {
      StrLeTotal(a[1..], b[1..]);
    }
  }

  lemma {:induction false} StrLeTransitive(a: string, b: string, c: string)
    requires StrLe(a, b) && StrLe(b, c)
    ensures StrLe(a, c)
    decreases |a|
  {
    if a != [] && a[0] == b[0] && b[0] == c[0] {
      StrLeTransitive(a[1..], b[1..], c[1..]);
    }
  }

  lemma {:induction false} StrLeAntisymmetric(a: string, b: string)
    requires StrLe(a, b) && StrLe(b, a)
    ensures a == b
    decreases |a|
  {
    if a != [] {
      StrLeAntisymmetric(a[1..], b[1..]);
      assert a == [a[0]] + a[1..] && b == [b[0]] + b[1..];
    }
  }

  predicate Sorted(s: seq<string>) {
    forall i, j :: 0 <= i < j < |s| ==> StrLe(s[i], s[j])
  }

  predicate NoDuplicates(s: seq<string>) {
    forall i, j :: 0 <= i < j < |s| ==> s[i] != s[j]
  }

  /** Inserts `x` before the first element it does not follow. */
  function Insert(x: string, s: seq<string>): seq<string>
    decreases |s|
  {
    if s == [] then [x]
    else if StrLe(x, s[0]) then [x] + s
    else [s[0]] + Insert(x, s[1..])
  }

  /** Python's `sorted` on a list of strings. */
  function Sort(s: seq<string>): seq<string>
    decreases |s|
  {
    if s == [] then [] else Insert(s[0], Sort(s[1..]))
  }

  lemma {:induction false} InsertPermutation(x: string, s: seq<string>)
    ensures multiset(Insert(x, s)) == multiset(s) + multiset{x}
    decreases |s|
  {
    if s != [] && !StrLe(x, s[0]) {
      InsertPermutation(x, s[1..]);
      assert s == [s[0]] + s[1..];
    }
  }

  lemma {:induction false} InsertSorted(x: string, s: seq<string>)
    requires Sorted(s)
    ensures Sorted(Insert(x, s))
    decreases |s|
  {
    if s != [] && StrLe(x, s[0]) {
      forall k | 0 <= k < |s|
        ensures StrLe(x, s[k])
      {
        if k > 0 {
          StrLeTransitive(x, s[0], s[k]);
        }
      }
    } else if s != [] {
      InsertSorted(x, s[1..]);
      InsertPermutation(x, s[1..]);
      StrLeTotal(x, s[0]);
      var r := Insert(x, s[1..]);
      forall k | 0 <= k < |r|
        ensures StrLe(s[0], r[k])
      {
        assert r[k] in multiset(r);
        if r[k] != x {
          assert r[k] in multiset(s[1..]);
          var m :| 0 <= m < |s[1..]| && s[1..][m] == r[k];
          assert s[m + 1] == r[k];
        }
      }
      var t := [s[0]] + r;
      forall a, b | 0 <= a < b < |t|
        ensures StrLe(t[a], t[b])
      {
        assert t[b] == r[b - 1];
        if a > 0 {
          assert t[a] == r[a - 1];
        }
      }
    }
  }

  /** `sorted` returns an ordered permutation of its argument. */
  lemma {:induction false} SortSpec(s: seq<string>)
    ensures Sorted(Sort(s))
    ensures multiset(Sort(s)) == multiset(s)
    decreases |s|
  {
    if s != [] {
      SortSpec(s[1..]);
      InsertSorted(s[0], Sort(s[1..]));
      InsertPermutation(s[0], Sort(s[1..]));
      assert s == [s[0]] + s[1..];
    }
  }

  /** Sorting a list that is already in order leaves it as it is. */
  lemma {:induction false} SortOfSorted(s: seq<string>)
    requires Sorted(s)
    ensures Sort(s) == s
    decreases |s|
  {
    if s != [] {
      SortOfSorted(s[1..]);
      if |s| > 1 {
        assert StrLe(s[0], s[1]);
      }
    }
  }

  lemma {:induction false} InsertDistinct(x: string, s: seq<string>)
    requires NoDuplicates(s) && x !in s
    ensures NoDuplicates(Insert(x, s))
    decreases |s|
  {
    if s != [] && !StrLe(x, s[0]) {
      InsertDistinct(x, s[1..]);
      InsertPermutation(x, s[1..]);
      var r := Insert(x, s[1..]);
      assert s[0] !in s[1..];
      assert s[0] !in multiset(r);
      var t := [s[0]] + r;
      forall a, b | 0 <= a < b < |t|
        ensures t[a] != t[b]
      {
        assert t[b] == r[b - 1];
        assert t[b] in multiset(r);
        if a > 0 {
          assert t[a] == r[a - 1];
        }
      }
    }
  }

  /** Sorting a list without repetitions gives a list without repetitions. */
  lemma {:induction false} SortDistinct(s: seq<string>)
    requires NoDuplicates(s)
    ensures NoDuplicates(Sort(s))
    decreases |s|
  {
    if s != [] {
      SortDistinct(s[1..]);
      SortSpec(s[1..]);
      assert s[0] !in s[1..];
      assert s[0] !in multiset(Sort(s[1..]));
      InsertDistinct(s[0], Sort(s[1..]));
    }
  }

  lemma LeadingMembers(s: seq<string>)
    ensures |s| > 0 ==> s[0] in s
    ensures |s| > 1 ==> s[1] in s
  {
  }

  /** `[x for x in names if x.startswith(prefix)]`. */
  function Filter(names: seq<string>, prefix: string): (r: seq<string>)
    decreases |names|
  {
    if names == [] then []
    else if prefix <= names[0] then [names[0]] + Filter(names[1..], prefix)
    else Filter(names[1..], prefix)
  }

  /** Filtering keeps exactly the names with the prefix, in their order, and
      introduces no repetition. */
  lemma {:induction false} FilterSpec(names: seq<string>, prefix: string)
    ensures forall x :: x in Filter(names, prefix) <==> x in names && prefix <= x
    ensures Sorted(names) ==> Sorted(Filter(names, prefix))
    ensures NoDuplicates(names) ==> NoDuplicates(Filter(names, prefix))
    decreases |names|
  {
    if names != [] {
      FilterSpec(names[1..], prefix);
      var r := Filter(names, prefix);
      var rest := Filter(names[1..], prefix);
      assert names == [names[0]] + names[1..];
      if prefix <= names[0] {
        if Sorted(names) {
          forall k | 0 < k < |r|
            ensures StrLe(r[0], r[k])
          {
            assert r[k] in rest;
            var m :| 0 <= m < |names[1..]| && names[1..][m] == r[k];
            assert names[m + 1] == r[k];
          }
        }
        if NoDuplicates(names) {
          assert names[0] !in names[1..];
          forall k | 0 < k < |r|
            ensures r[0] != r[k]
          {
            assert r[k] in rest;
          }
        }
      }
    }
  }

  /** One registered command: its name and the command object click dispatches to. */
  datatype Entry<C> = Entry(name: string, command: C)

  /** The group's command dictionary, in registration order. */
  datatype Group<C> = Group(entries: seq<Entry<C>>)

  /** Dictionary keys are unique. */
  predicate Valid<C>(g: Group<C>) {
    forall i, j :: 0 <= i < j < |g.entries| ==> g.entries[i].name != g.entries[j].name
  }

  function Names<C>(entries: seq<Entry<C>>): seq<string>
    decreases |entries|
  {
    if entries == [] then [] else [entries[0].name] + Names(entries[1..])
  }

  /** `click.Group.get_command`: `self.commands.get(cmd_name)`. */
  function Lookup<C>(entries: seq<Entry<C>>, name: string): Option<C>
    decreases |entries|
  {
    if entries == [] then None
    else if entries[0].name == name then Some(entries[0].command)
    else Lookup(entries[1..], name)
  }

  /** `click.Group.list_commands`: the registered names, sorted. */
  function ListCommands<C>(g: Group<C>): seq<string> {
    Sort(Names(g.entries))
  }

  /** The list comprehension of docpatch.py:52-53. */
  function Matches<C>(g: Group<C>, prefix: string): seq<string> {
    Filter(ListCommands(g), prefix)
  }

  /** The outcome of `get_command`: a command, `None`, or `ctx.fail`, which raises a
      usage error carrying the message. */
  datatype Resolution<C> = Found(command: C) | NotFound | Failed(message: string)

  const TooManyMatches: string := "Too many matches: "

  /** `AliasedGroup.get_command(ctx, cmd_name)`. */
  function GetCommand<C>(g: Group<C>, name: string): Resolution<C> {
    match Lookup(g.entries, name)
    case Some(c) => Found(c)
    case None =>
      var matches := Matches(g, name);
      if |matches| == 0 then NotFound
      else if |matches| == 1 then
        match Lookup(g.entries, matches[0])
        case Some(c) => Found(c)
        case None => NotFound
      else Failed(TooManyMatches + Text.Join(", ", Sort(matches)))
  }

  lemma {:induction false} NamesSpec<C>(entries: seq<Entry<C>>)
    ensures |Names(entries)| == |entries|
    ensures forall k :: 0 <= k < |entries| ==> Names(entries)[k] == entries[k].name
    decreases |entries|
  {
    if entries != [] {
      NamesSpec(entries[1..]);
    }
  }

  /** The dictionary lookup finds a name exactly when some entry carries it, and then
      gives that entry's command. */
  lemma {:induction false} LookupSpec<C>(g: Group<C>, name: string)
    requires Valid(g)
    ensures Lookup(g.entries, name).Some? <==> exists k :: 0 <= k < |g.entries| && g.entries[k].name == name
    ensures forall k :: 0 <= k < |g.entries| && g.entries[k].name == name ==>
      Lookup(g.entries, name) == Some(g.entries[k].command)
    decreases |g.entries|
  {
    if g.entries != [] {
      var tail := Group(g.entries[1..]);
      LookupSpec(tail, name);
      forall k | 0 < k < |g.entries| && g.entries[k].name == name
        ensures tail.entries[k - 1].name == name
      {
      }
    }
  }

  /** The listed commands are the registered names, sorted, each once. */
  lemma ListCommandsSpec<C>(g: Group<C>)
    requires Valid(g)
    ensures Sorted(ListCommands(g)) && NoDuplicates(ListCommands(g))
    ensures forall x :: x in ListCommands(g) <==> x in Names(g.entries)
  {
    var names := Names(g.entries);
    NamesSpec(g.entries);
    SortSpec(names);
    assert NoDuplicates(names);
    SortDistinct(names);
    forall x ensures x in Sort(names) <==> x in names {
      assert x in multiset(Sort(names)) <==> x in multiset(names);
    }
  }

  /** The matches are the registered names that start with the input, sorted, each
      once; so the `sorted` of docpatch.py:58 leaves them in the same order. */
  lemma MatchesSpec<C>(g: Group<C>, prefix: string)
    requires Valid(g)
    ensures Sorted(Matches(g, prefix)) && NoDuplicates(Matches(g, prefix))
    ensures Sort(Matches(g, prefix)) == Matches(g, prefix)
    ensures forall x :: x in Matches(g, prefix) <==>
      (prefix <= x && exists k :: 0 <= k < |g.entries| && g.entries[k].name == x)
  {
    ListCommandsSpec(g);
    FilterSpec(ListCommands(g), prefix);
    SortOfSorted(Matches(g, prefix));
    NamesSpec(g.entries);
    forall x
      ensures x in Names(g.entries) <==> exists k :: 0 <= k < |g.entries| && g.entries[k].name == x
    {
      if x in Names(g.entries) {
        var k :| 0 <= k < |Names(g.entries)| && Names(g.entries)[k] == x;
        assert g.entries[k].name == x;
      }
    }
  }

  /** An exact name wins, even when other names start with it. */
  lemma GetCommandExact<C>(g: Group<C>, k: nat)
    requires Valid(g) && k < |g.entries|
    ensures GetCommand(g, g.entries[k].name) == Found(g.entries[k].command)
  {
    LookupSpec(g, g.entries[k].name);
  }

  /** Neither an exact name nor a name with the prefix: no command (`None`). Conversely,
      `None` comes back only in that case. */
  lemma GetCommandNotFound<C>(g: Group<C>, name: string)
    requires Valid(g)
    ensures GetCommand(g, name) == NotFound <==>
      forall k :: 0 <= k < |g.entries| ==> !(name <= g.entries[k].name)
  {
    LookupSpec(g, name);
    MatchesSpec(g, name);
    var ms := Matches(g, name);
    if exists k :: 0 <= k < |g.entries| && name <= g.entries[k].name {
      var k :| 0 <= k < |g.entries| && name <= g.entries[k].name;
      assert g.entries[k].name in ms;
      if Lookup(g.entries, name).None? && |ms| == 1 {
        assert ms[0] in ms;
        LookupSpec(g, ms[0]);
      }
    } else {
      assert forall k :: 0 <= k < |g.entries| ==> g.entries[k].name != name;
      assert forall x :: x !in ms;
      LeadingMembers(ms);
    }
  }

  /** No exact name and exactly one name with the prefix: that command. */
  lemma GetCommandUnique<C>(g: Group<C>, name: string, k: nat)
    requires Valid(g) && k < |g.entries|
    requires forall j :: 0 <= j < |g.entries| ==> g.entries[j].name != name
    requires name <= g.entries[k].name
    requires forall j :: 0 <= j < |g.entries| && name <= g.entries[j].name ==> j == k
    ensures GetCommand(g, name) == Found(g.entries[k].command)
  {
    LookupSpec(g, name);
    MatchesSpec(g, name);
    var ms := Matches(g, name);
    var x := g.entries[k].name;
    assert x in ms;
    forall y | y in ms ensures y == x {
      var j :| 0 <= j < |g.entries| && g.entries[j].name == y;
    }
    LeadingMembers(ms);
    assert ms[0] == x;
    LookupSpec(g, x);
  }

  /** No exact name and two or more names with the prefix: `ctx.fail` with the matches
      joined by ", " in sorted order. */
  lemma GetCommandAmbiguous<C>(g: Group<C>, name: string, i: nat, j: nat)
    requires Valid(g) && i < |g.entries| && j < |g.entries| && i != j
    requires forall k :: 0 <= k < |g.entries| ==> g.entries[k].name != name
    requires name <= g.entries[i].name && name <= g.entries[j].name
    ensures |Matches(g, name)| >= 2
    ensures GetCommand(g, name) == Failed(TooManyMatches + Text.Join(", ", Matches(g, name)))
  {
    LookupSpec(g, name);
    MatchesSpec(g, name);
    var ms := Matches(g, name);
    assert g.entries[i].name in ms && g.entries[j].name in ms;
  }
}
