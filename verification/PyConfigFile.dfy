/** The configuration files of PyConfig in utils.py: writing the options through the lines
    that were read, and reading them back. */
module PyConfigFile {
  import opened Prelude

  /** A Python value: a list of names, another value of a type that reading keeps, or one
      of a type that reading drops. */
  datatype Value = Names(names: seq<string>) | Plain(n: int) | Odd(n: int)

  /** A line: comments, blank and indented lines and block headers are passed through;
      an assignment to one name; any other statement; the empty string. */
  datatype Kind = Passive | Assign(name: string, value: Value) | Statement | Empty

  /** `signed` says whether the text of the line contains the signature. */
  datatype Line = Line(kind: Kind, signed: bool)

  const COMPUTED_OPTIONS := "computed_options"
  const CUSTOMIZABLE_OPTIONS := "customizable_options"

  // ---------------------------------------------------------------- reading

  /** The names bound after the lines were executed: the last assignment wins. */
  function Locals(lines: seq<Line>): map<string, Value> {
    if lines == [] then map[]
    else
      var front, last := Locals(lines[..|lines| - 1]), lines[|lines| - 1].kind;
      if last.Assign? then front[last.name := last.value] else front
  }

  /** The options that `read_conf` finds: values of the known types. */
  function ReadOptions(lines: seq<Line>): map<string, Value> {
    var locals := Locals(lines);
    map name | name in locals && !locals[name].Odd? :: locals[name]
  }

  lemma LocalsAppend(lines: seq<Line>, line: Line)
    ensures Locals(lines + [line])
         == if line.kind.Assign? then Locals(lines)[line.kind.name := line.kind.value] else Locals(lines)
  {
    assert (lines + [line])[..|lines|] == lines;
  }

  lemma LastStays(front: seq<Line>, last: Line, name: string, i: nat)
    requires i < |front| && (last.kind.Assign? ==> last.kind.name != name)
    requires name in Locals(front) && front[i].kind == Assign(name, Locals(front)[name])
    requires forall j :: i < j < |front| && front[j].kind.Assign? ==> front[j].kind.name != name
    ensures var lines := front + [last];
            && name in Locals(lines) && lines[i].kind == Assign(name, Locals(lines)[name])
            && forall j :: i < j < |lines| && lines[j].kind.Assign? ==> lines[j].kind.name != name
  {
    LocalsAppend(front, last);
  }

  /** The value of a name is that of its last assignment. */
  lemma {:induction false} LastAssignmentWins(lines: seq<Line>, name: string)
    ensures name in Locals(lines) <==> exists i :: 0 <= i < |lines| && lines[i].kind.Assign? && lines[i].kind.name == name
    ensures name in Locals(lines) ==>
              exists i :: 0 <= i < |lines| && lines[i].kind == Assign(name, Locals(lines)[name])
                          && forall j :: i < j < |lines| && lines[j].kind.Assign? ==> lines[j].kind.name != name
  {
    if lines != [] {
      var n := |lines| - 1;
      LastAssignmentWins(lines[..n], name);
      if lines[n].kind.Assign? && lines[n].kind.name == name {
        assert lines[n].kind == Assign(name, Locals(lines)[name]);
      } else {
        if name in Locals(lines) {
          var i :| 0 <= i < n && lines[..n][i].kind == Assign(name, Locals(lines[..n])[name])
                   && forall j :: i < j < n && lines[..n][j].kind.Assign? ==> lines[..n][j].kind.name != name;
          LastStays(lines[..n], lines[n], name, i);
          assert lines == lines[..n] + [lines[n]];
        } else {
          forall i | 0 <= i < n && lines[i].kind.Assign? ensures lines[i].kind.name != name {
            assert lines[..n][i] == lines[i];
          }
        }
      }
    }
  }

  /** The lines that are passed through as they are. */
  function Others(lines: seq<Line>): seq<Line> {
    if lines == [] then []
    else
      var front, last := Others(lines[..|lines| - 1]), lines[|lines| - 1];
      if last.kind == Passive || last.kind == Statement then front + [last] else front
  }

  lemma OthersAppend(lines: seq<Line>, line: Line)
    ensures Others(lines + [line])
         == Others(lines) + if line.kind == Passive || line.kind == Statement then [line] else []
  {
    assert (lines + [line])[..|lines|] == lines;
  }

  /** Without a signature no line is skipped; with one, exactly the lines that contain it. */
  lemma {:induction false} UnsignedMeaning(lines: seq<Line>, signature: bool)
    ensures !signature ==> Unsigned(lines, signature) == lines
    ensures forall line :: line in Unsigned(lines, signature) <==> line in lines && !(signature && line.signed)
    ensures (forall line :: line in lines ==> !line.signed) ==> Unsigned(lines, signature) == lines
  {
    if lines != [] {
      var n := |lines| - 1;
      UnsignedMeaning(lines[..n], signature);
      assert lines == lines[..n] + [lines[n]];
      assert forall line :: line in lines <==> line in lines[..n] || line == lines[n];
    }
  }

  /** The lines that `write` does not skip because of the signature. */
  function Unsigned(lines: seq<Line>, signature: bool): seq<Line> {
    if lines == [] then []
    else
      var front, last := Unsigned(lines[..|lines| - 1], signature), lines[|lines| - 1];
      if signature && last.signed then front else front + [last]
  }

  function Elements(l: seq<string>): set<string> {
    set x | x in l
  }

  /** The names treated as computed. */
  function Computed(options: map<string, Value>, defaults: seq<string>): set<string> {
    Elements(defaults) + {COMPUTED_OPTIONS}
    + if COMPUTED_OPTIONS in options && options[COMPUTED_OPTIONS].Names? then Elements(options[COMPUTED_OPTIONS].names) else {}
  }

  // ---------------------------------------------------------------- what writing keeps

  /** Both maps agree on the name. */
  ghost predicate SameAt(a: map<string, Value>, b: map<string, Value>, name: string) {
    (name in a <==> name in b) && (name in a ==> a[name] == b[name])
  }

  /** A file written through lines: options that are not computed have their values from
      memory, removed ones are gone, computed ones keep what the lines said; only
      computed_options itself disappears when it is set. */
  ghost predicate Reflects(file: map<string, Value>, options: map<string, Value>, original: map<string, Value>,
                           computed: set<string>) {
    forall name ::
      && (name !in computed ==> SameAt(file, options, name))
      && (name in computed && (name != COMPUTED_OPTIONS || name !in options) ==> SameAt(file, original, name))
      && (name == COMPUTED_OPTIONS && name in options ==> name !in file)
  }

  /** What holds after some of the lines: `out` is written, `seen` the lines so far. */
  ghost predicate Progress(out: map<string, Value>, options: map<string, Value>, seen: map<string, Value>,
                           computed: set<string>, updated: seq<string>, fullEdit: bool) {
    && (!fullEdit ==> CUSTOMIZABLE_OPTIONS !in updated)
    && forall name ::
      && (name in computed && (name != COMPUTED_OPTIONS || name !in options) ==> SameAt(out, seen, name))
      && (name == COMPUTED_OPTIONS && name in options ==> name !in out)
      && (name !in computed && name in out ==> name in options && (out[name] == options[name] || name !in updated))
      && (name in updated ==> name !in computed && name in options && name in out && out[name] == options[name])
  }

  /** All options but the rest are written, unless computed. */
  ghost predicate Delivered(out: map<string, Value>, options: map<string, Value>, rest: set<string>, computed: set<string>) {
    forall name :: name in options && name !in rest && name !in computed ==> SameAt(out, options, name)
  }

  lemma DeliverOne(out0: map<string, Value>, out: map<string, Value>, options: map<string, Value>,
                   rest: set<string>, computed: set<string>, name: string)
    requires Delivered(out0, options, rest, computed)
    requires forall x :: x != name ==> SameAt(out, out0, x)
    requires name !in computed ==> SameAt(out, options, name)
    ensures Delivered(out, options, rest - {name}, computed)
  {
    forall x | x in options && x !in rest - {name} && x !in computed ensures SameAt(out, options, x) {
      if x != name {
        assert SameAt(out, out0, x) && SameAt(out0, options, x);
      }
    }
  }

  lemma AllDelivered(out: map<string, Value>, options: map<string, Value>, original: map<string, Value>,
                     computed: set<string>, updated: seq<string>, fullEdit: bool)
    requires Progress(out, options, original, computed, updated, fullEdit)
    requires Delivered(out, options, {}, computed)
    ensures Reflects(out, options, original, computed)
  {
    forall name | name !in computed ensures SameAt(out, options, name) {
    }
  }

  /** An assignment is replaced by one with the value from memory. */
  lemma Replaced(out: map<string, Value>, options: map<string, Value>, seen: map<string, Value>, computed: set<string>,
                 updated: seq<string>, fullEdit: bool, token: string, v: Value)
    requires Progress(out, options, seen, computed, updated, fullEdit)
    requires token in options && token !in computed && (token != CUSTOMIZABLE_OPTIONS || fullEdit)
    requires COMPUTED_OPTIONS in computed
    ensures Progress(out[token := options[token]], options, seen[token := v], computed, updated + [token], fullEdit)
  {
  }

  /** An assignment is passed on. */
  lemma Kept(out: map<string, Value>, options: map<string, Value>, seen: map<string, Value>, computed: set<string>,
             updated: seq<string>, fullEdit: bool, token: string, v: Value)
    requires Progress(out, options, seen, computed, updated, fullEdit)
    requires token in options && token != COMPUTED_OPTIONS
    requires token in computed || (token == CUSTOMIZABLE_OPTIONS && !fullEdit)
    ensures Progress(out[token := v], options, seen[token := v], computed, updated, fullEdit)
  {
  }

  /** An assignment to a name that is no option is passed on if the name is computed, else
      dropped. */
  lemma NoOption(out: map<string, Value>, options: map<string, Value>, seen: map<string, Value>, computed: set<string>,
                 updated: seq<string>, fullEdit: bool, token: string, v: Value)
    requires Progress(out, options, seen, computed, updated, fullEdit) && token !in options
    ensures Progress(if token in computed then out[token := v] else out, options, seen[token := v], computed, updated, fullEdit)
  {
  }

  /** The name is computed: a default, or listed by the option computed_options. */
  predicate Listed(options: map<string, Value>, defaults: seq<string>, name: string) {
    name in defaults || ("computed_options" in options && options["computed_options"].Names? && name in options["computed_options"].names)
  }

  /** What a file keeps of every name: the value of the original file if the name is listed
      as computed, else the value from memory; computed_options itself is written only if it
      is not set. */
  ghost predicate KeepsNames(file: map<string, Value>, options: map<string, Value>, original: map<string, Value>,
                             defaults: seq<string>) {
    forall name ::
      && (name != "computed_options" && Listed(options, defaults, name) ==> SameAt(file, original, name))
      && (name != "computed_options" && !Listed(options, defaults, name) ==> SameAt(file, options, name))
      && (name == "computed_options" && name in options ==> name !in file)
      && (name == "computed_options" && name !in options ==> SameAt(file, original, name))
  }

  lemma ReflectsNames(file: map<string, Value>, options: map<string, Value>, original: map<string, Value>, defaults: seq<string>)
    requires Reflects(file, options, original, Computed(options, defaults))
    ensures KeepsNames(file, options, original, defaults)
  {
    forall name ensures name in Computed(options, defaults) <==> name == "computed_options" || Listed(options, defaults, name) {
    }
  }

  /** The file goes on from what was written before; of the new lines these are passed on. */
  ghost predicate Passes(out: seq<Line>, out0: seq<Line>, others: seq<Line>) {
    Starts(out, out0) && Others(out) == Others(out0) + others
  }

  lemma PassesAppend(out: seq<Line>, line: Line)
    ensures Passes(out + [line], out, if line.kind == Passive || line.kind == Statement then [line] else [])
    ensures Passes(out, out, [])
  {
    OthersAppend(out, line);
  }

  lemma PassesOn(a: seq<Line>, b: seq<Line>, c: seq<Line>, x: seq<Line>, y: seq<Line>)
    requires Passes(b, a, x) && Passes(c, b, y)
    ensures Passes(c, a, x + y)
  {
  }

  ghost predicate Starts(out: seq<Line>, head: seq<Line>) {
    |head| <= |out| && out[..|head|] == head
  }

  /** The signature is written first. */
  function Header(signature: bool): seq<Line> {
    if signature then [Line(Passive, true)] else []
  }

  lemma HeaderBindsNothing(signature: bool)
    ensures Locals(Header(signature)) == map[] && Others(Header(signature)) == Header(signature)
  {
    if signature {
      assert Locals([Line(Passive, true)][..0]) == map[] && Others([Line(Passive, true)][..0]) == [];
    }
  }

  class PyConfig {
    var lines: seq<Line>
    var options: map<string, Value>
    const signature: bool

    /** default_computed_options, a list shared by all objects of the class. */
    const defaults: PyList?<string>

    /** The file on disk. */
    var file: seq<Line>

    constructor (lines: seq<Line>, options: map<string, Value>, signature: bool, defaults: PyList?<string>)
      ensures this.lines == lines && this.options == options
      ensures this.signature == signature && this.defaults == defaults
    {
      this.lines, this.options, this.signature, this.defaults, file := lines, options, signature, defaults, lines;
    }

    ghost function ComputedNames(): set<string>
      reads this, defaults
    {
      Computed(options, if defaults == null then [] else defaults.items)
    }

    /** `get_computed_options`: the shared list itself grows. */
    method GetComputedOptions() returns (c: seq<string>)
      modifies defaults
      ensures Elements(c) == old(ComputedNames())
      ensures defaults != null ==> defaults.items == c
      ensures ComputedNames() == old(ComputedNames())
    {
      c := if defaults != null then defaults.items else [];
      ghost var c0 := c;
      if COMPUTED_OPTIONS in options && options[COMPUTED_OPTIONS].Names? {
        var specific := options[COMPUTED_OPTIONS].names;
        for i := 0 to |specific|
          invariant c == c0 + specific[..i]
        {
          c := c + [specific[i]];
        }
      }
      ghost var c1 := c;
      assert Elements(c1) + {COMPUTED_OPTIONS} == ComputedNames();
      if COMPUTED_OPTIONS !in c {
        c := c + [COMPUTED_OPTIONS];
      }
      assert Elements(c) == Elements(c1) + {COMPUTED_OPTIONS};
      if defaults != null {
        defaults.items := c;
      }
    }

    ghost function Defaults(): seq<string>
      reads this, defaults
    {
      if defaults == null then [] else defaults.items
    }

    /** `write` */
    method Write(fullEdit: bool)
      modifies this`file, defaults
      ensures lines == [] ==> Locals(file) == options
      ensures lines != [] ==> Reflects(Locals(file), options, Locals(Unsigned(lines, signature)), old(ComputedNames()))
      ensures lines != [] ==> KeepsNames(Locals(file), options, Locals(Unsigned(lines, signature)), old(Defaults()))
      ensures signature ==> file != [] && file[0].signed
      ensures lines != [] ==>
                Others(file) == Header(signature) + Others(Unsigned(lines, signature))
      ensures ComputedNames() == old(ComputedNames())
    {
      var out := Header(signature);
      HeaderBindsNothing(signature);
      if |lines| == 0 {
        out := WriteAll(out);
      } else {
        out := WriteLines(out, fullEdit);
        ReflectsNames(Locals(out), options, Locals(Unsigned(lines, signature)), old(Defaults()));
      }
      file := out;
    }

    /** The simple case: one assignment for each option, in any order. */
    method WriteAll(out0: seq<Line>) returns (out: seq<Line>)
      requires Locals(out0) == map[]
      ensures Locals(out) == options && Starts(out, out0)
    {
      out := out0;
      var rest := options.Keys;
      while rest != {}
        invariant rest <= options.Keys && Starts(out, out0)
        invariant Locals(out) == map name | name in options && name !in rest :: options[name]
        decreases |rest|
      {
        var name :| name in rest;
        LocalsAppend(out, Line(Assign(name, options[name]), false));
        out := out + [Line(Assign(name, options[name]), false)];
        rest := rest - {name};
      }
    }

    /** The lines that were read drive the writing; options without a line come last. */
    method WriteLines(out0: seq<Line>, fullEdit: bool) returns (out: seq<Line>)
      requires Locals(out0) == map[]
      modifies defaults
      ensures Reflects(Locals(out), options, Locals(Unsigned(lines, signature)), old(ComputedNames()))
      ensures Passes(out, out0, Others(Unsigned(lines, signature)))
      ensures ComputedNames() == old(ComputedNames())
    {
      out := out0;
      ghost var computed := ComputedNames();
      var updated: seq<string> := [];
      for i := 0 to |lines|
        invariant ComputedNames() == computed
        invariant Progress(Locals(out), options, Locals(Unsigned(lines[..i], signature)), computed, updated, fullEdit)
        invariant Passes(out, out0, Others(Unsigned(lines[..i], signature)))
      {
        assert lines[..i + 1][..i] == lines[..i];
        ghost var out1, before := out, Unsigned(lines[..i], signature);
        out, updated := WriteLine(lines[i], out, updated, fullEdit, before, computed);
        OthersAppend(before, lines[i]);
        PassesOn(out0, out1, out, Others(before),
                 if !(signature && lines[i].signed) && (lines[i].kind == Passive || lines[i].kind == Statement) then [lines[i]] else []);
      }
      assert lines[..|lines|] == lines;
      ghost var out1 := out;
      out := WriteRest(out, updated, fullEdit, Locals(Unsigned(lines, signature)), computed);
      PassesOn(out0, out1, out, Others(Unsigned(lines, signature)), []);
      assert Others(Unsigned(lines, signature)) + [] == Others(Unsigned(lines, signature));
    }

    /** One line of the original file. */
    method WriteLine(line: Line, out0: seq<Line>, updated0: seq<string>, fullEdit: bool,
                     ghost before: seq<Line>, ghost computed: set<string>)
      returns (out: seq<Line>, updated: seq<string>)
      requires computed == ComputedNames()
      requires Progress(Locals(out0), options, Locals(before), computed, updated0, fullEdit)
      modifies defaults
      ensures ComputedNames() == computed
      ensures Progress(Locals(out), options, Locals(if signature && line.signed then before else before + [line]),
                       computed, updated, fullEdit)
      ensures Passes(out, out0, if !(signature && line.signed) && (line.kind == Passive || line.kind == Statement) then [line] else [])
    {
      out, updated := out0, updated0;
      if signature && line.signed {
        return;
      }
      LocalsAppend(before, line);
      LocalsAppend(out, line);
      PassesAppend(out, line);
      if line.kind == Empty {
        return;
      }
      if line.kind.Assign? {
        out, updated := WriteAssignment(line, out, updated, fullEdit, before, computed);
      } else {
        out := out + [line];
      }
    }

    /** One assignment of the original file: replaced, kept or dropped. */
    method WriteAssignment(line: Line, out0: seq<Line>, updated0: seq<string>, fullEdit: bool,
                           ghost before: seq<Line>, ghost computed: set<string>)
      returns (out: seq<Line>, updated: seq<string>)
      requires line.kind.Assign? && computed == ComputedNames()
      requires Progress(Locals(out0), options, Locals(before), computed, updated0, fullEdit)
      modifies defaults
      ensures ComputedNames() == computed
      ensures Progress(Locals(out), options, Locals(before + [line]), computed, updated, fullEdit)
      ensures Passes(out, out0, [])
    {
      out, updated := out0, updated0;
      var token := line.kind.name;
      if token in options {
        out, updated := WriteKnown(line, out, updated, fullEdit, before, computed);
      } else {
        LocalsAppend(before, line);
        LocalsAppend(out, line);
        PassesAppend(out, line);
        NoOption(Locals(out), options, Locals(before), computed, updated, fullEdit, token, line.kind.value);
        var c := GetComputedOptions();
        assert token in c <==> token in Elements(c);
        if token in c {
          out := out + [line];
        }
      }
    }

    /** The case of a name that is among the options. */
    method WriteKnown(line: Line, out0: seq<Line>, updated0: seq<string>, fullEdit: bool,
                      ghost before: seq<Line>, ghost computed: set<string>)
      returns (out: seq<Line>, updated: seq<string>)
      requires line.kind.Assign? && line.kind.name in options && computed == ComputedNames()
      requires Progress(Locals(out0), options, Locals(before), computed, updated0, fullEdit)
      modifies defaults
      ensures ComputedNames() == computed
      ensures Progress(Locals(out), options, Locals(before + [line]), computed, updated, fullEdit)
      ensures Passes(out, out0, [])
    {
      out, updated := out0, updated0;
      var token := line.kind.name;
      LocalsAppend(before, line);
      LocalsAppend(out, line);
      PassesAppend(out, line);
      PassesAppend(out, Line(Assign(token, options[token]), false));
      ghost var done, seen := Locals(out0), Locals(before);
      var c := GetComputedOptions();
      assert token in c <==> token in Elements(c);
      if token !in c && (token != CUSTOMIZABLE_OPTIONS || fullEdit) {
        Replaced(done, options, seen, computed, updated, fullEdit, token, line.kind.value);
        LocalsAppend(out, Line(Assign(token, options[token]), false));
        out := out + [Line(Assign(token, options[token]), false)];
        updated := updated + [token];
      } else {
        if token != COMPUTED_OPTIONS {
          Kept(done, options, seen, computed, updated, fullEdit, token, line.kind.value);
          out := out + [line];
        }
      }
    }

    /** The options that no line has written, in any order. */
    method WriteRest(out0: seq<Line>, updated: seq<string>, ghost fullEdit: bool, ghost original: map<string, Value>, ghost computed: set<string>)
      returns (out: seq<Line>)
      requires computed == ComputedNames()
      requires Progress(Locals(out0), options, original, computed, updated, fullEdit)
      modifies defaults
      ensures Reflects(Locals(out), options, original, computed)
      ensures Passes(out, out0, [])
      ensures ComputedNames() == computed
    {
      out := out0;
      PassesAppend(out, Line(Empty, false));
      var rest := options.Keys;
      while rest != {}
        invariant rest <= options.Keys && ComputedNames() == computed
        invariant Progress(Locals(out), options, original, computed, updated, fullEdit)
        invariant Delivered(Locals(out), options, rest, computed)
        invariant Passes(out, out0, [])
        decreases |rest|
      {
        var name :| name in rest;
        ghost var before, out1 := Locals(out), out;
        out := WriteOption(name, out, updated, fullEdit, original, computed);
        PassesOn(out0, out1, out, [], []);
        DeliverOne(before, Locals(out), options, rest, computed, name);
        rest := rest - {name};
      }
      AllDelivered(Locals(out), options, original, computed, updated, fullEdit);
    }

    method WriteOption(name: string, out0: seq<Line>, updated: seq<string>, ghost fullEdit: bool,
                       ghost original: map<string, Value>, ghost computed: set<string>)
      returns (out: seq<Line>)
      requires computed == ComputedNames() && name in options
      requires Progress(Locals(out0), options, original, computed, updated, fullEdit)
      modifies defaults
      ensures ComputedNames() == computed
      ensures Progress(Locals(out), options, original, computed, updated, fullEdit)
      ensures name !in computed ==> SameAt(Locals(out), options, name)
      ensures forall x :: x != name ==> SameAt(Locals(out), Locals(out0), x)
      ensures Passes(out, out0, [])
    {
      out := out0;
      PassesAppend(out, Line(Assign(name, options[name]), false));
      if name !in updated {
        var c := GetComputedOptions();
        assert name in c <==> name in Elements(c);
        if name !in c {
          LocalsAppend(out, Line(Assign(name, options[name]), false));
          out := out + [Line(Assign(name, options[name]), false)];
        }
      }
    }

    /** The end of the constructor: the lines and the options of the file. */
    method ReadConf()
      modifies this`lines, this`options
      ensures lines == file && options == ReadOptions(file)
    {
      lines := file;
      options := ReadOptions(file);
    }

    /** Writing the options through the lines of a file and reading the file again. */
    method WriteAndRead(fullEdit: bool)
      requires lines != []
      modifies this`file, this`lines, this`options, defaults
      ensures ReadBack(options, old(options), Locals(Unsigned(old(lines), signature)), old(ComputedNames()))
    {
      ghost var options0, computed, original := options, ComputedNames(), Locals(Unsigned(lines, signature));
      Write(fullEdit);
      ReadConf();
      ReflectedOptions(file, options0, original, computed);
    }
  }

  /** What is read after writing: every option that is not computed has its value from
      memory, if its type is one that reading keeps; nothing else is added. */
  ghost predicate ReadBack(read: map<string, Value>, options: map<string, Value>, original: map<string, Value>,
                           computed: set<string>) {
    forall name ::
      && (name in read ==> !read[name].Odd?)
      && (name !in computed ==>
           (name in read <==> name in options && !options[name].Odd?) && (name in read ==> read[name] == options[name]))
      && (name in computed && name != COMPUTED_OPTIONS ==>
           (name in read <==> name in original && !original[name].Odd?) && (name in read ==> read[name] == original[name]))
      && (name == COMPUTED_OPTIONS && name in options ==> name !in read)
  }

  lemma ReflectedOptions(file: seq<Line>, options: map<string, Value>, original: map<string, Value>, computed: set<string>)
    requires Reflects(Locals(file), options, original, computed)
    ensures ReadBack(ReadOptions(file), options, original, computed)
  {
    forall name
      ensures name !in computed ==> SameAt(Locals(file), options, name)
      ensures name in computed && name != COMPUTED_OPTIONS ==> SameAt(Locals(file), original, name)
      ensures name == COMPUTED_OPTIONS && name in options ==> name !in Locals(file)
    {
    }
  }
}
