/**
  The terminal front end's state and text (internal/interface/interface.go):
  the replica list shown by `list`, the three messages that update the
  model's fields, and the status text in the header. Rendering, styling and
  keyboard handling belong to the terminal library and are not modelled.
*/
module Ui {
  import opened Text

  // ---------------------------------------------------------------------
  // Go's string order

  /**
    a <= b in Go's string order. Go compares the UTF-8 bytes, and UTF-8
    preserves code point order, so this is lexicographic order on code points.
  */
  predicate AtMost(a: string, b: string)
  {
    if a == [] then true
    else if b == [] then false
    else if a[0] != b[0] then a[0] < b[0]
    else AtMost(a[1..], b[1..])
  }

  lemma {:induction false} AtMostTotal(a: string, b: string)
    ensures AtMost(a, b) || AtMost(b, a)
  {
    if a != [] && b != [] && a[0] == b[0] {
      AtMostTotal(a[1..], b[1..]);
    }
  }

  lemma {:induction false} AtMostTransitive(a: string, b: string, c: string)
    requires AtMost(a, b) && AtMost(b, c)
    ensures AtMost(a, c)
  {
    if a != [] && b != [] && c != [] && a[0] == b[0] && b[0] == c[0] {
      AtMostTransitive(a[1..], b[1..], c[1..]);
    }
  }

  lemma {:induction false} AtMostReflexive(a: string)
    ensures AtMost(a, a)
  {
    if a != [] {
      AtMostReflexive(a[1..]);
    }
  }

  lemma {:induction false} AtMostAntisymmetric(a: string, b: string)
    requires AtMost(a, b) && AtMost(b, a)
    ensures a == b
  {
    if a != [] && b != [] {
      AtMostAntisymmetric(a[1..], b[1..]);
      assert a == [a[0]] + a[1..] && b == [b[0]] + b[1..];
    }
  }

  ghost predicate Sorted(s: seq<string>)
  {
    forall i, j :: 0 <= i < j < |s| ==> AtMost(s[i], s[j])
  }

  /** `x` placed before the first element it does not come after. */
  function Insert(x: string, s: seq<string>): seq<string>
  {
    if s == [] then [x]
    else if AtMost(x, s[0]) then [x] + s
    else [s[0]] + Insert(x, s[1..])
  }

  /** The ascending order of `s`, as a reference definition of sort.Strings. */
  function SortedOf(s: seq<string>): seq<string>
  {
    if s == [] then [] else Insert(s[0], SortedOf(s[1..]))
  }

  /** A sorted sequence stays sorted under a new head that comes before all of it. */
  lemma ConsSorted(a: string, r: seq<string>)
    requires Sorted(r) && forall j :: 0 <= j < |r| ==> AtMost(a, r[j])
    ensures Sorted([a] + r)
  {
    forall i, j | 0 <= i < j < |r| + 1 ensures AtMost(([a] + r)[i], ([a] + r)[j]) {
      if i > 0 {
        assert ([a] + r)[i] == r[i - 1];
      }
    }
  }

  lemma {:induction false} InsertKeeps(x: string, s: seq<string>)
    requires Sorted(s)
    ensures Sorted(Insert(x, s)) && multiset(Insert(x, s)) == multiset(s) + multiset{x}
  {
    if s != [] {
      if AtMost(x, s[0]) {
        forall j | 0 <= j < |s| ensures AtMost(x, s[j]) {
          if j > 0 {
            AtMostTransitive(x, s[0], s[j]);
          }
        }
        ConsSorted(x, s);
      } else {
        AtMostTotal(x, s[0]);
        assert s == [s[0]] + s[1..];
        InsertKeeps(x, s[1..]);
        var r := Insert(x, s[1..]);
        forall j | 0 <= j < |r| ensures AtMost(s[0], r[j]) {
          assert r[j] in multiset(s[1..]) + multiset{x};
          if r[j] != x {
            assert r[j] in s[1..];
          }
        }
        ConsSorted(s[0], r);
        assert Insert(x, s) == [s[0]] + r;
      }
    }
  }

  /** SortedOf sorts, and keeps every name as often as it occurs. */
  lemma {:induction false} SortedOfSorts(s: seq<string>)
    ensures Sorted(SortedOf(s)) && multiset(SortedOf(s)) == multiset(s)
  {
    if s != [] {
      SortedOfSorts(s[1..]);
      InsertKeeps(s[0], SortedOf(s[1..]));
      assert s == [s[0]] + s[1..];
    }
  }

  /** The first element of a sorted sequence comes before every element. */
  lemma HeadIsLeast(s: seq<string>, x: string)
    requires Sorted(s) && x in s
    ensures AtMost(s[0], x)
  {
    var k :| 0 <= k < |s| && s[k] == x;
    if k == 0 {
      AtMostReflexive(x);
    }
  }

  lemma SortedTail(s: seq<string>)
    requires Sorted(s) && s != []
    ensures Sorted(s[1..]) && multiset(s[1..]) == multiset(s) - multiset{s[0]}
  {
    assert s == [s[0]] + s[1..];
  }

  /** Two sorted arrangements of one multiset start alike and continue with the same rest. */
  lemma SameHead(s: seq<string>, t: seq<string>)
    requires Sorted(s) && Sorted(t) && multiset(s) == multiset(t) && s != [] && t != []
    ensures s[0] == t[0]
    ensures Sorted(s[1..]) && Sorted(t[1..]) && multiset(s[1..]) == multiset(t[1..])
  {
    assert s[0] in multiset(t) && t[0] in multiset(s);
    HeadIsLeast(s, t[0]);
    HeadIsLeast(t, s[0]);
    AtMostAntisymmetric(s[0], t[0]);
    SortedTail(s);
    SortedTail(t);
  }

  /** There is only one ascending arrangement of a multiset of strings. */
  lemma {:induction false} SortedUnique(s: seq<string>, t: seq<string>)
    requires Sorted(s) && Sorted(t) && multiset(s) == multiset(t)
    ensures s == t
  {
    if s != [] && t != [] {
      SameHead(s, t);
      SortedUnique(s[1..], t[1..]);
      assert s == [s[0]] + s[1..] && t == [t[0]] + t[1..];
    }
  }

  /** Exchanges two neighbouring elements. */
  method SwapDown(a: array<string>, j: int)
    requires 0 < j < a.Length
    modifies a
    ensures a[j - 1] == old(a[j]) && a[j] == old(a[j - 1])
    ensures forall p :: 0 <= p < a.Length && p != j - 1 && p != j ==> a[p] == old(a[p])
    ensures multiset(a[..]) == old(multiset(a[..]))
  {
    ghost var before := a[..];
    a[j - 1], a[j] := a[j], a[j - 1];
    assert before == before[..j - 1] + [before[j - 1], before[j]] + before[j + 1..];
    assert a[..] == before[..j - 1] + [before[j], before[j - 1]] + before[j + 1..];
  }

  /** One pass of insertion: a[i] moves down into the sorted prefix a[..i]. */
  method InsertDown(a: array<string>, i: int)
    requires 0 <= i < a.Length && Sorted(a[..i])
    modifies a
    ensures Sorted(a[..i + 1])
    ensures a[i + 1..] == old(a[i + 1..])
    ensures multiset(a[..]) == old(multiset(a[..]))
  {
    var j := i;
    while j > 0 && !AtMost(a[j - 1], a[j])
      invariant 0 <= j <= i
      invariant forall p :: i < p < a.Length ==> a[p] == old(a[p])
      invariant multiset(a[..]) == old(multiset(a[..]))
      invariant forall p, q :: 0 <= p < q <= i && q != j ==> AtMost(a[p], a[q])
    {
      AtMostTotal(a[j - 1], a[j]);
      SwapDown(a, j);
      j := j - 1;
    }
    forall p | 0 <= p < j ensures AtMost(a[p], a[j]) {
      if p < j - 1 {
        AtMostTransitive(a[p], a[j - 1], a[j]);
      }
    }
  }

  /** sort.Strings: sorts the caller's slice in place. */
  method SortStrings(a: array<string>)
    modifies a
    ensures a[..] == SortedOf(old(a[..]))
  {
    for i := 0 to a.Length
      invariant Sorted(a[..i])
      invariant multiset(a[..]) == old(multiset(a[..]))
    {
      InsertDown(a, i);
    }
    assert a[..a.Length] == a[..];
    SortedOfSorts(old(a[..]));
    SortedUnique(a[..], SortedOf(old(a[..])));
  }

  // ---------------------------------------------------------------------
  // FormatReplicaList

  const NoReplicas := "No replicas running."

  /** The first line of a non-empty listing. */
  function Header(n: nat): string
  {
    "Running replicas (" + Dec(n) + "):"
  }

  /** One listed replica, without its line break. */
  function Bullet(name: string): string
  {
    "  \U{2022} " + name
  }

  function Bullets(names: seq<string>): string
  {
    if names == [] then "" else Bullet(names[0]) + "\n" + Bullets(names[1..])
  }

  /** The text `list` shows for names already in display order. */
  function ListText(names: seq<string>): string
  {
    if names == [] then NoReplicas else Header(|names|) + "\n" + Bullets(names)
  }

  lemma {:induction false} BulletsAppend(names: seq<string>, name: string)
    ensures Bullets(names + [name]) == Bullets(names) + Bullet(name) + "\n"
  {
    if names != [] {
      assert (names + [name])[1..] == names[1..] + [name];
      BulletsAppend(names[1..], name);
      var head := Bullet(names[0]) + "\n";
      assert Bullets(names + [name]) == head + (Bullets(names[1..]) + Bullet(name) + "\n");
      assert Bullets(names) == head + Bullets(names[1..]);
    } else {
      assert Bullets([name]) == Bullet(name) + "\n" + Bullets([]);
    }
  }

  /**
    FormatReplicaList: an empty list gives the fixed message; otherwise the
    slice is sorted in place and listed, one bullet line per name.
  */
  method FormatReplicaList(a: array<string>) returns (s: string)
    modifies a
    ensures a[..] == SortedOf(old(a[..]))
    ensures s == ListText(a[..])
  {
    if a.Length == 0 {
      assert a[..] == [] == old(a[..]);
      return NoReplicas;
    }
    SortStrings(a);
    s := WriteList(a);
  }

  /** The header line, then one bullet line per element of `a`, in order. */
  method WriteList(a: array<string>) returns (s: string)
    requires a.Length > 0
    ensures s == ListText(a[..])
  {
    s := Header(a.Length) + "\n";
    for i := 0 to a.Length
      invariant s == Header(a.Length) + "\n" + Bullets(a[..i])
    {
      BulletsAppend(a[..i], a[i]);
      assert a[..i + 1] == a[..i] + [a[i]];
      s := s + Bullet(a[i]) + "\n";
    }
    assert a[..a.Length] == a[..];
  }

  /** Splitting at the first line break gives that line, then the rest's lines. */
  lemma {:induction false} SplitLine(line: string, rest: string)
    requires '\n' !in line
    ensures Split(line + "\n" + rest, '\n') == [line] + Split(rest, '\n')
  {
    var s := line + "\n" + rest;
    if line == [] {
      assert s[1..] == rest;
    } else {
      assert s[1..] == line[1..] + "\n" + rest;
      SplitLine(line[1..], rest);
      assert [line[0]] + line[1..] == line;
    }
  }

  ghost predicate SingleLine(names: seq<string>)
  {
    forall i :: 0 <= i < |names| ==> '\n' !in names[i]
  }

  /** The bullet of each name, in order. */
  function BulletLines(names: seq<string>): seq<string>
  {
    seq(|names|, i requires 0 <= i < |names| => Bullet(names[i]))
  }

  lemma {:induction false} BulletsLines(names: seq<string>)
    requires SingleLine(names)
    ensures Split(Bullets(names), '\n') == BulletLines(names) + [""]
  {
    if names != [] {
      assert '\n' !in Bullet(names[0]) by {
        assert Bullet(names[0]) == "  \U{2022} " + names[0];
      }
      var rest := names[1..];
      assert SingleLine(rest) by {
        forall i | 0 <= i < |rest| ensures '\n' !in rest[i] {
          assert rest[i] == names[i + 1];
        }
      }
      assert BulletLines(names) == [Bullet(names[0])] + BulletLines(rest);
      SplitLine(Bullet(names[0]), Bullets(rest));
      BulletsLines(rest);
    }
  }

  /**
    Read back line by line, a listing of single-line names is the header
    with the count, then exactly one bullet per name in the given order,
    then the empty remainder after the final line break.
  */
  lemma ListTextLines(names: seq<string>)
    requires names != [] && SingleLine(names)
    ensures Split(ListText(names), '\n') ==
      [Header(|names|)] + BulletLines(names) + [""]
  {
    assert '\n' !in Header(|names|) by {
      var d := Dec(|names|);
      assert Header(|names|) == "Running replicas (" + d + "):";
      assert forall i :: 0 <= i < |d| ==> IsDigit(d[i]);
    }
    SplitLine(Header(|names|), Bullets(names));
    BulletsLines(names);
  }

  /** The fixed message is shown exactly when there is nothing to list. */
  lemma ListTextEmpty(names: seq<string>)
    ensures ListText(names) == NoReplicas <==> names == []
  {
    if names != [] {
      assert ListText(names)[0] == 'R';
    }
  }

  // ---------------------------------------------------------------------
  // Fixed texts

  /** The text `help` shows. */
  const HelpText: string :=
    "\n" +
    "┌─────────────────────────────────────────────────┐\n" +
    "│                 Available Commands               │\n" +
    "├─────────────────────────────────────────────────┤\n" +
    "│  help              Show this help message        │\n" +
    "│  list              List all running replicas     │\n" +
    "│  isolate <name>    Show logs from one replica    │\n" +
    "│  showall           Show logs from all replicas   │\n" +
    "│  kill <name>       Stop a specific replica       │\n" +
    "│  quit              Shutdown and exit             │\n" +
    "└─────────────────────────────────────────────────┘"

  /** FormatError's text, before styling. */
  function ErrorText(msg: string): string
  {
    "\U{2717} " + msg
  }

  /** FormatSuccess's text, before styling. */
  function SuccessText(msg: string): string
  {
    "\U{2713} " + msg
  }

  // ---------------------------------------------------------------------
  // The model and its messages

  /** max: the larger of two ints. */
  function Max(a: int, b: int): (r: int)
    ensures r >= a && r >= b
    ensures r == a || r == b
  {
    if a > b then a else b
  }

  /**
    The width of the rule between the header's title and status: what the
    window leaves of its width, never negative.
  */
  function RuleWidth(width: int, titleWidth: int, statusWidth: int): (w: int)
    ensures w >= 0 && w >= width - titleWidth - statusWidth
    ensures w == 0 || w == width - titleWidth - statusWidth
  {
    Max(0, width - titleWidth - statusWidth)
  }

  /** The header's status text, before styling. */
  function HeaderStatus(filter: string): (status: string)
    ensures status == "Showing: all" <==> filter == ""
  {
    assert filter != "" ==> ("Isolated: " + filter)[0] == 'I';
    if filter != "" then "Isolated: " + filter else "Showing: all"
  }

  /** Distinct filters show distinct status texts. */
  lemma HeaderStatusInjective(f: string, g: string)
    requires HeaderStatus(f) == HeaderStatus(g)
    ensures f == g
  {
    if f != "" && g != "" {
      assert f == HeaderStatus(f)[10..];
      assert g == HeaderStatus(g)[10..];
    }
  }

  /** The fields of the model that the modelled messages touch or that they must leave alone. */
  datatype Model = Model(
    content: string,
    statusMessage: string,
    isolatedFilter: string,
    ready: bool,
    width: int,
    height: int)

  /** A new model, as NewModel returns it. */
  const Initial := Model("", "", "", false, 0, 0)

  datatype Msg = LogMsg(text: string) | StatusMsg(status: string) | SetFilterMsg(filter: string)

  /**
    Update for the three message kinds: a log line is appended to the
    content with a line break, a status replaces the status message, a
    filter replaces the isolation filter; every other field is kept.
  */
  function Update(m: Model, msg: Msg): (m': Model)
    ensures m'.ready == m.ready && m'.width == m.width && m'.height == m.height
    ensures msg.LogMsg? ==> m' == m.(content := m.content + msg.text + "\n")
    ensures msg.StatusMsg? ==> m' == m.(statusMessage := msg.status)
    ensures msg.SetFilterMsg? ==> m' == m.(isolatedFilter := msg.filter)
  {
    match msg
    case LogMsg(text) => m.(content := m.content + text + "\n")
    case StatusMsg(status) => m.(statusMessage := status)
    case SetFilterMsg(filter) => m.(isolatedFilter := filter)
  }

  /** The model after the messages in `msgs`, oldest first. */
  function Apply(m: Model, msgs: seq<Msg>): Model
  {
    if msgs == [] then m else Update(Apply(m, msgs[..|msgs| - 1]), msgs[|msgs| - 1])
  }

  /** The log lines in `msgs`, each with its line break. */
  function LogText(msgs: seq<Msg>): string
  {
    if msgs == [] then ""
    else LogText(msgs[..|msgs| - 1]) + (if msgs[|msgs| - 1].LogMsg? then msgs[|msgs| - 1].text + "\n" else "")
  }

  /** The filter of the last SetFilterMsg in `msgs`, or `current` when there is none. */
  function LastFilter(msgs: seq<Msg>, current: string): string
  {
    if msgs == [] then current
    else if msgs[|msgs| - 1].SetFilterMsg? then msgs[|msgs| - 1].filter
    else LastFilter(msgs[..|msgs| - 1], current)
  }

  /**
    Over any run of messages the content only grows, by exactly the log
    lines in order; the filter is the last one set; the window fields are
    untouched.
  */
  lemma {:induction false} ApplyEffect(m: Model, msgs: seq<Msg>)
    ensures Apply(m, msgs).content == m.content + LogText(msgs)
    ensures Apply(m, msgs).isolatedFilter == LastFilter(msgs, m.isolatedFilter)
    ensures Apply(m, msgs).ready == m.ready && Apply(m, msgs).width == m.width && Apply(m, msgs).height == m.height
  {
    if msgs != [] {
      var init := msgs[..|msgs| - 1];
      ApplyEffect(m, init);
      var last := msgs[|msgs| - 1];
      if last.LogMsg? {
        assert m.content + LogText(init) + (last.text + "\n") == m.content + (LogText(init) + (last.text + "\n"));
      } else {
        assert LogText(msgs) == LogText(init) + "";
      }
    }
  }

  /** Applying messages one batch after another is applying them all. */
  lemma {:induction false} ApplyConcat(m: Model, a: seq<Msg>, b: seq<Msg>)
    ensures Apply(m, a + b) == Apply(Apply(m, a), b)
  {
    if b != [] {
      assert (a + b)[..|a + b| - 1] == a + b[..|b| - 1];
      ApplyConcat(m, a, b[..|b| - 1]);
    } else {
      assert a + b == a;
    }
  }
}
