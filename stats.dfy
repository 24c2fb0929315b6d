/** Variable bookkeeping of lib/stats_module.rb: how a `VariableContainer`
    names its variables, how a `Variable` normalises its name and classes a
    value into intervals, and how `coindependent?` sanitises values before
    handing them to R. The table rows are of an arbitrary type `R`; the
    extractor block yields a real number. */
module Statistics {
  import opened Ruby

  // ---------------------------------------------------------------------
  // Name normalisation (lib/stats_module.rb:28)

  /** Ruby's `\s`: space, tab, line feed, vertical tab, form feed and
      carriage return. */
  predicate IsSpace(c: char)
  {
    c == ' ' || c == '\t' || c == '\n' || c == 11 as char || c == 12 as char || c == '\r'
  }

  /** No whitespace anywhere. */
  predicate Clean(s: string)
  {
    forall i :: 0 <= i < |s| ==> !IsSpace(s[i])
  }

  /** The string without its leading run of whitespace. */
  function DropSpaces(s: string): (r: string)
    ensures |r| <= |s|
    ensures r == [] || !IsSpace(r[0])
  {
    if s != [] && IsSpace(s[0]) then DropSpaces(s[1..]) else s
  }

  /** `name.gsub(/\s+/, '_')`: every maximal run of whitespace becomes one
      underscore. */
  function Normalize(s: string): string
    decreases |s|
  {
    if s == [] then []
    else if IsSpace(s[0]) then "_" + Normalize(DropSpaces(s[1..]))
    else [s[0]] + Normalize(s[1..])
  }

  /** The characters that are neither whitespace nor an underscore, in order. */
  function Letters(s: string): string
  {
    if s == [] then []
    else if IsSpace(s[0]) || s[0] == '_' then Letters(s[1..])
    else [s[0]] + Letters(s[1..])
  }

  /** The stored name has no whitespace, is no longer than the given one,
      and is empty only when the given one is. */
  lemma {:induction false} NormalizeClean(s: string)
    ensures Clean(Normalize(s))
    ensures |Normalize(s)| <= |s|
    ensures Normalize(s) == [] <==> s == []
    decreases |s|
  {
    if s != [] {
      if IsSpace(s[0]) {
        NormalizeClean(DropSpaces(s[1..]));
      } else {
        NormalizeClean(s[1..]);
      }
    }
  }

  /** A name with no whitespace is stored as given. */
  lemma {:induction false} NormalizeKeepsClean(s: string)
    requires Clean(s)
    ensures Normalize(s) == s
  {
    if s != [] {
      assert Clean(s[1..]);
      NormalizeKeepsClean(s[1..]);
    }
  }

  /** Normalising twice is normalising once. */
  lemma NormalizeIdempotent(s: string)
    ensures Normalize(Normalize(s)) == Normalize(s)
  {
    NormalizeClean(s);
    NormalizeKeepsClean(Normalize(s));
  }

  lemma {:induction false} LettersDropSpaces(s: string)
    ensures Letters(DropSpaces(s)) == Letters(s)
  {
    if s != [] && IsSpace(s[0]) {
      LettersDropSpaces(s[1..]);
    }
  }

  /** Only whitespace is replaced: every other character survives, in order. */
  lemma {:induction false} NormalizeKeepsLetters(s: string)
    ensures Letters(Normalize(s)) == Letters(s)
    decreases |s|
  {
    if s != [] {
      if IsSpace(s[0]) {
        NormalizeKeepsLetters(DropSpaces(s[1..]));
        LettersDropSpaces(s[1..]);
        assert ("_" + Normalize(DropSpaces(s[1..])))[1..] == Normalize(DropSpaces(s[1..]));
      } else {
        NormalizeKeepsLetters(s[1..]);
        assert ([s[0]] + Normalize(s[1..]))[1..] == Normalize(s[1..]);
      }
    }
  }

  /** Nothing but whitespace. */
  predicate AllSpace(w: string)
  {
    forall c :: c in w ==> IsSpace(c)
  }

  /** A maximal run of whitespace becomes exactly one underscore: with `w`
      all whitespace, and `x` and `y` not whitespace where they touch it,
      the text on either side is normalised on its own. */
  lemma NormalizeRun(x: string, w: string, y: string)
    requires w != [] && AllSpace(w)
    requires x == [] || !IsSpace(x[|x| - 1])
    requires y == [] || !IsSpace(y[0])
    ensures Normalize(x + (w + y)) == Normalize(x) + ("_" + Normalize(y))
  {
    NormalizeAppend(x, w + y);
    NormalizeLeadingRun(w, y);
  }

  /** A leading run of whitespace becomes one underscore. */
  lemma NormalizeLeadingRun(w: string, y: string)
    requires w != [] && AllSpace(w)
    requires y == [] || !IsSpace(y[0])
    ensures Normalize(w + y) == "_" + Normalize(y)
  {
    assert w + y == [w[0]] + (w[1..] + y);
    NormalizeHead(w[0], w[1..] + y);
    DropSpacesRun(w[1..], y);
  }

  /** Text that ends in non-whitespace is normalised apart from what
      follows it: no run of whitespace straddles the seam. */
  lemma {:induction false} NormalizeAppend(x: string, z: string)
    requires x == [] || !IsSpace(x[|x| - 1])
    ensures Normalize(x + z) == Normalize(x) + Normalize(z)
    decreases |x|, 1
  {
    if x == [] {
      assert x + z == z;
    } else {
      if IsSpace(x[0]) {
        NormalizeAppendAfterSpace(x, z);
      } else {
        NormalizeAppendAfterLetter(x, z);
      }
    }
  }

  /** The inductive step of NormalizeAppend when `x` opens with whitespace. */
  lemma {:induction false} NormalizeAppendAfterSpace(x: string, z: string)
    requires x != [] && IsSpace(x[0]) && !IsSpace(x[|x| - 1])
    ensures Normalize(x + z) == Normalize(x) + Normalize(z)
    decreases |x|, 0
  {
    var c, t := x[0], x[1..];
    assert x + z == [c] + (t + z) && x == [c] + t;
    var d := DropSpaces(t);
    DropSpacesSuffix(t);
    calc {
      Normalize(x + z);
    == { NormalizeHead(c, t + z); }
      "_" + Normalize(DropSpaces(t + z));
    == { DropSpacesPrefix(t, z); }
      "_" + Normalize(d + z);
    == { NormalizeAppend(d, z); }
      "_" + (Normalize(d) + Normalize(z));
    ==
      ("_" + Normalize(d)) + Normalize(z);
    == { NormalizeHead(c, t); }
      Normalize(x) + Normalize(z);
    }
  }

  /** The inductive step of NormalizeAppend when `x` opens with a letter. */
  lemma {:induction false} NormalizeAppendAfterLetter(x: string, z: string)
    requires x != [] && !IsSpace(x[0]) && !IsSpace(x[|x| - 1])
    ensures Normalize(x + z) == Normalize(x) + Normalize(z)
    decreases |x|, 0
  {
    var c, t := x[0], x[1..];
    assert x + z == [c] + (t + z) && x == [c] + t;
    calc {
      Normalize(x + z);
    == { NormalizeHead(c, t + z); }
      [c] + Normalize(t + z);
    == { NormalizeAppend(t, z); }
      [c] + (Normalize(t) + Normalize(z));
    ==
      ([c] + Normalize(t)) + Normalize(z);
    == { NormalizeHead(c, t); }
      Normalize(x) + Normalize(z);
    }
  }

  /** `Normalize` on a string with a known first character. */
  lemma NormalizeHead(c: char, s: string)
    ensures Normalize([c] + s) == if IsSpace(c) then "_" + Normalize(DropSpaces(s)) else [c] + Normalize(s)
  {
    assert ([c] + s)[0] == c && ([c] + s)[1..] == s;
  }

  /** Dropping the leading whitespace of a run followed by non-whitespace. */
  lemma {:induction false} DropSpacesRun(w: string, y: string)
    requires AllSpace(w)
    requires y == [] || !IsSpace(y[0])
    ensures DropSpaces(w + y) == y
  {
    if w != [] {
      assert (w + y)[1..] == w[1..] + y;
      DropSpacesRun(w[1..], y);
    } else {
      assert w + y == y;
    }
  }

  /** The leading whitespace of a string that ends in non-whitespace lies
      inside it, whatever follows. */
  lemma {:induction false} DropSpacesPrefix(s: string, z: string)
    requires s != [] && !IsSpace(s[|s| - 1])
    ensures DropSpaces(s + z) == DropSpaces(s) + z
  {
    if IsSpace(s[0]) {
      assert (s + z)[1..] == s[1..] + z;
      DropSpacesPrefix(s[1..], z);
    }
  }

  /** Dropping leading whitespace keeps a last character that is not
      whitespace. */
  lemma {:induction false} DropSpacesSuffix(s: string)
    requires s != [] && !IsSpace(s[|s| - 1])
    ensures DropSpaces(s) != [] && DropSpaces(s)[|DropSpaces(s)| - 1] == s[|s| - 1]
  {
    if IsSpace(s[0]) {
      DropSpacesSuffix(s[1..]);
    }
  }

  /** `@name = name.gsub(/\s+/, '_') if name`: a missing name stays missing. */
  function StoredName(name: Option<string>): (r: Option<string>)
    ensures r.Some? <==> name.Some?
    ensures r.Some? ==> Clean(r.value)
  {
    NormalizeClean(if name.Some? then name.value else "");
    if name.Some? then Some(Normalize(name.value)) else None
  }

  // ---------------------------------------------------------------------
  // Default names (lib/stats_module.rb:7-16)

  /** The decimal digit `d`. */
  function Digit(d: nat): char
    requires d < 10
  {
    (48 + d) as char
  }

  /** Ruby's `n.to_s` for a natural number. */
  function NatToString(n: nat): (s: string)
    ensures |s| >= 1
    ensures forall i :: 0 <= i < |s| ==> '0' <= s[i] <= '9'
  {
    if n < 10 then [Digit(n)] else NatToString(n / 10) + [Digit(n % 10)]
  }

  /** Different numbers are written differently. */
  lemma {:induction false} NatToStringInjective(a: nat, b: nat)
    requires NatToString(a) == NatToString(b)
    ensures a == b
  {
    if a >= 10 && b >= 10 {
      var sa, sb := NatToString(a), NatToString(b);
      assert sa[..|sa| - 1] == NatToString(a / 10);
      assert sb[..|sb| - 1] == NatToString(b / 10);
      NatToStringInjective(a / 10, b / 10);
      assert Digit(a % 10) == sa[|sa| - 1] == Digit(b % 10);
    }
  }

  /** `"unnamed_variable#{k}"`. */
  function DefaultName(k: nat): string
  {
    "unnamed_variable" + NatToString(k)
  }

  lemma DefaultNameInjective(a: nat, b: nat)
    requires DefaultName(a) == DefaultName(b)
    ensures a == b
  {
    var p := "unnamed_variable";
    assert NatToString(a) == DefaultName(a)[|p|..];
    assert NatToString(b) == DefaultName(b)[|p|..];
    NatToStringInjective(a, b);
  }

  /** How many of the first `i` names are missing. */
  function CountUnnamed(names: seq<Option<string>>, i: nat): (k: nat)
    requires i <= |names|
    ensures k <= i
  {
    if i == 0 then 0
    else CountUnnamed(names, i - 1) + if names[i - 1].None? then 1 else 0
  }

  /** The names the container leaves: a given name is kept, and the
      variable without one gets the next number, counting only the unnamed
      variables up to and including it. */
  function AssignNames(names: seq<Option<string>>): (r: seq<string>)
    ensures |r| == |names|
  {
    seq(|names|, i requires 0 <= i < |names| => NameAt(names, i))
  }

  /** The name the variable at index `i` is left with. */
  function NameAt(names: seq<Option<string>>, i: nat): string
    requires i < |names|
  {
    if names[i].Some? then names[i].value else DefaultName(CountUnnamed(names, i + 1))
  }

  /** The name given to the variable at index `i`. */
  lemma AssignNamesAt(names: seq<Option<string>>, i: nat)
    requires i < |names|
    ensures AssignNames(names)[i] == if names[i].Some? then names[i].value else DefaultName(CountUnnamed(names, i) + 1)
  {
  }

  lemma {:induction false} CountUnnamedMonotone(names: seq<Option<string>>, i: nat, j: nat)
    requires i <= j <= |names|
    ensures CountUnnamed(names, i) <= CountUnnamed(names, j)
    decreases j - i
  {
    if i < j {
      CountUnnamedMonotone(names, i, j - 1);
    }
  }

  /** The unnamed variables are numbered 1, 2, ... in list order: the
      number of the one at index `i` is one more than the count of unnamed
      variables before it, and lies between 1 and the total count. */
  lemma UnnamedNumbering(names: seq<Option<string>>, i: nat)
    requires i < |names| && names[i].None?
    ensures AssignNames(names)[i] == DefaultName(CountUnnamed(names, i) + 1)
    ensures 1 <= CountUnnamed(names, i) + 1 <= CountUnnamed(names, |names|)
  {
    CountUnnamedMonotone(names, i + 1, |names|);
  }

  /** Named variables keep their names, and no two unnamed variables get the
      same default name. */
  lemma AssignNamesMeaning(names: seq<Option<string>>)
    ensures forall i :: 0 <= i < |names| && names[i].Some? ==> AssignNames(names)[i] == names[i].value
    ensures forall i, j :: 0 <= i < j < |names| && names[i].None? && names[j].None? ==>
      AssignNames(names)[i] != AssignNames(names)[j]
  {
    forall i, j | 0 <= i < j < |names| && names[i].None? && names[j].None?
      ensures AssignNames(names)[i] != AssignNames(names)[j]
    {
      UnnamedNumbering(names, i);
      UnnamedNumbering(names, j);
      CountUnnamedMonotone(names, i + 1, j);
      if AssignNames(names)[i] == AssignNames(names)[j] {
        DefaultNameInjective(CountUnnamed(names, i) + 1, CountUnnamed(names, j) + 1);
        assert false;
      }
    }
  }

  // ---------------------------------------------------------------------
  // Interval lookup (lib/stats_module.rb:40-42, 54-61)

  /** The least index `i` with `v <= bounds[i]`, or -1 when `v` exceeds
      every boundary. */
  function Location(bounds: seq<real>, v: real): (k: int)
    ensures -1 <= k < |bounds|
    ensures k >= 0 ==> v <= bounds[k] && forall j :: 0 <= j < k ==> v > bounds[j]
    ensures k == -1 <==> forall j :: 0 <= j < |bounds| ==> v > bounds[j]
  {
    LocationFrom(bounds, v, 0)
  }

  function LocationFrom(bounds: seq<real>, v: real, i: nat): (k: int)
    requires i <= |bounds|
    ensures k == -1 || i <= k < |bounds|
    ensures k >= 0 ==> v <= bounds[k] && forall j :: i <= j < k ==> v > bounds[j]
    ensures k == -1 <==> forall j :: i <= j < |bounds| ==> v > bounds[j]
    decreases |bounds| - i
  {
    if i == |bounds| then -1
    else if v <= bounds[i] then i
    else LocationFrom(bounds, v, i + 1)
  }

  /** What `value_at` yields: a class index, or the extractor's raw value. */
  datatype Reading = Class(index: int) | Raw(value: real)

  /** `Variable`. The extractor block is fixed at construction. */
  class Variable<R> {
    var name: Option<string>
    var container: VariableContainer?<R>
    var intervals: Option<seq<real>>
    var numClasses: Option<nat>
    const block: R -> real

    /** `initialize(name, num_classes, &block)`: the intervals start unset,
        because `variable_container` is still nil when line 25 asks for it,
        and the name is stored normalised. */
    constructor (name: Option<string>, numClasses: Option<nat>, block: R -> real)
      ensures this.name == StoredName(name)
      ensures this.numClasses == numClasses && this.block == block
      ensures container == null && intervals == None
    {
      this.name := StoredName(name);
      this.numClasses := numClasses;
      this.block := block;
      container := null;
      intervals := None;
    }

    /** The body of the loop of `VariableContainer#initialize` for this
        variable: `var.variable_container = c` and
        `var.name ||= "unnamed_variable#{number_unnamed += 1}"`. */
    method Adopt(c: VariableContainer<R>, counter: nat) returns (next: nat)
      modifies this
      ensures container == c
      ensures name == if old(name).Some? then old(name) else Some(DefaultName(counter + 1))
      ensures next == counter + if old(name).None? then 1 else 0
    {
      container := c;
      next := counter;
      if name.None? {
        next := next + 1;
        name := Some(DefaultName(next));
      }
    }

    /** `location_in_interval(row)`: the least index whose boundary is at
        least the row's value, or -1 past the last boundary. */
    method LocationInInterval(row: R) returns (k: int)
      requires intervals.Some?
      ensures -1 <= k < |intervals.value|
      ensures k >= 0 ==> block(row) <= intervals.value[k]
      ensures forall j :: 0 <= j < |intervals.value| && (k == -1 || j < k) ==> block(row) > intervals.value[j]
      ensures k == Location(intervals.value, block(row))
    {
      var bounds := intervals.value;
      for i := 0 to |bounds|
        invariant forall j :: 0 <= j < i ==> block(row) > bounds[j]
      {
        if block(row) <= bounds[i] {
          return i;
        }
      }
      return -1;
    }

    /** `value_at(row)`: the class index when intervals are set, the raw
        value otherwise. */
    method ValueAt(row: R) returns (r: Reading)
      ensures intervals.Some? ==> r.Class? && -1 <= r.index < |intervals.value|
      ensures intervals.Some? ==> r.index == Location(intervals.value, block(row))
      ensures intervals.None? ==> r == Raw(block(row))
    {
      if intervals.Some? {
        var k := LocationInInterval(row);
        r := Class(k);
      } else {
        r := Raw(block(row));
      }
    }
  }

  /** The names of the listed variables, in order. */
  function NamesOf<R>(vs: seq<Variable<R>>): (r: seq<Option<string>>)
    reads set v | v in vs
    ensures |r| == |vs|
    ensures forall i :: 0 <= i < |vs| ==> r[i] == vs[i].name
  {
    if vs == [] then [] else NamesOf(vs[..|vs| - 1]) + [vs[|vs| - 1].name]
  }

  /** `VariableContainer`. */
  class VariableContainer<R> {
    const table: seq<R>
    var variables: seq<Variable<R>>

    /** `initialize(table, variables)`: every variable points back to the
        new container, and each unnamed one is named by the running
        counter. */
    constructor (table: seq<R>, variables: seq<Variable<R>>)
      requires forall i, j :: 0 <= i < j < |variables| ==> variables[i] != variables[j]
      modifies set v | v in variables
      ensures this.table == table && this.variables == variables
      ensures forall v :: v in variables ==> v.container == this
      ensures forall i :: 0 <= i < |variables| ==>
        variables[i].name == Some(AssignNames(old(NamesOf(variables)))[i])
    {
      ghost var names := NamesOf(variables);
      this.table := table;
      this.variables := variables;
      new;
      var numberUnnamed := 0;
      for i := 0 to |variables|
        invariant this.variables == variables
        invariant numberUnnamed == CountUnnamed(names, i)
        invariant forall j {:trigger variables[j].container} :: 0 <= j < i ==> variables[j].container == this
        invariant forall j {:trigger variables[j].name} :: 0 <= j < i ==> variables[j].name == Some(NameAt(names, j))
        invariant forall j {:trigger variables[j].name} :: i <= j < |variables| ==> variables[j].name == names[j]
      {
        var v := variables[i];
        assert v.name == names[i];
        assert forall j :: 0 <= j < |variables| && j != i ==> variables[j] != v;
        numberUnnamed := v.Adopt(this, numberUnnamed);
      }
      assert forall i :: 0 <= i < |names| ==> AssignNames(names)[i] == NameAt(names, i);
    }
  }

  // ---------------------------------------------------------------------
  // value_at in lib/glymour.rb (lines 79-96)

  /** lib/glymour.rb's `value_at`, with `fuel` bounding the depth of calls
      (None when it runs out): with intervals set it calls
      `location_in_interval`, which calls `value_at` again for the first
      boundary. */
  function GlymourValueAt(bounds: Option<seq<real>>, v: real, fuel: nat): Option<Reading>
    decreases fuel, 0
  {
    if bounds.None? then Some(Raw(v))
    else if fuel == 0 then None
    else GlymourLocation(bounds.value, v, 0, fuel - 1)
  }

  /** lib/glymour.rb's `location_in_interval` from boundary `i` on. */
  function GlymourLocation(bounds: seq<real>, v: real, i: nat, fuel: nat): Option<Reading>
    decreases fuel, 1, |bounds| - i
  {
    if i >= |bounds| then Some(Class(-1))
    else
      var w := GlymourValueAt(Some(bounds), v, fuel);
      if w.None? then None
      else if (if w.value.Class? then w.value.index as real else w.value.value) <= bounds[i] then Some(Class(i))
      else GlymourLocation(bounds, v, i + 1, fuel)
  }

  /** With a non-empty interval list, no call depth is enough: the two
      methods call each other without end. With an empty list the lookup
      returns -1 at once. */
  lemma {:induction false} GlymourValueAtDiverges(bounds: seq<real>, v: real, fuel: nat)
    ensures bounds != [] ==> GlymourValueAt(Some(bounds), v, fuel) == None
    ensures bounds == [] && fuel > 0 ==> GlymourValueAt(Some(bounds), v, fuel) == Some(Class(-1))
  {
    if bounds != [] && fuel > 0 {
      GlymourValueAtDiverges(bounds, v, fuel - 1);
    }
  }

  // ---------------------------------------------------------------------
  // Sanitisation (lib/stats_module.rb:72-78)

  /** A column value as the extractor yields it. */
  datatype Value = Flag(b: bool) | Int(i: int) | Real(x: real) | Text(s: string)

  /** The `case` of lines 73-77. */
  function SanitizeValue(v: Value): Value
  {
    match v
    case Flag(b) => Int(if b then 1 else 0)
    case _ => v
  }

  /** `values.map { ... }`: true becomes 1, false becomes 0, anything else
      is kept; length and order are preserved and no flag is left. */
  function Sanitize(vs: seq<Value>): (r: seq<Value>)
    ensures |r| == |vs|
    ensures forall i :: 0 <= i < |r| ==> !r[i].Flag?
    ensures forall i :: 0 <= i < |vs| && !vs[i].Flag? ==> r[i] == vs[i]
    ensures forall i :: 0 <= i < |vs| && vs[i].Flag? ==> r[i] == Int(if vs[i].b then 1 else 0)
  {
    seq(|vs|, i requires 0 <= i < |vs| => SanitizeValue(vs[i]))
  }

  /** Sanitising twice is sanitising once, and sanitising a concatenation
      sanitises each part. */
  lemma SanitizeLaws(vs: seq<Value>, ws: seq<Value>)
    ensures Sanitize(Sanitize(vs)) == Sanitize(vs)
    ensures Sanitize(vs + ws) == Sanitize(vs) + Sanitize(ws)
  {
    assert forall i :: 0 <= i < |vs + ws| ==> (vs + ws)[i] == if i < |vs| then vs[i] else ws[i - |vs|];
  }
}
