/** The miscellaneous completion builders: commands, help topics, key bindings,
    quickmarks, bookmarks, sessions and open tabs. Each registry the builders read
    (the command table, the key configuration, the settings data, the session
    manager, the window registry) is passed in as a plain value. */
module MiscModels {
  import opened PyBuiltins
  import opened CompletionModels
  import opened Collections

  /** Adds a category holding items, in order: new_category followed by one
      new_item per row. */
  method AddCategory(model: CompletionModel, title: string, items: seq<Item>)
    modifies model
    ensures model.categories == old(model.categories) + [Category(title, items)]
  {
    var cat := model.NewCategory(title);
    for i := 0 to |items|
      invariant model.categories == old(model.categories) + [Category(title, items[..i])]
    {
      model.NewItem(cat, items[i]);
      assert items[..i + 1] == items[..i] + [items[i]];
    }
    assert items[..|items|] == items;
  }

  // ===========================================================================
  // Commands, help topics and key bindings

  /** A registered command object, with the attributes the completion reads. */
  datatype Command = Command(name: string, desc: string, hide: bool, debug: bool, deprecated: bool)

  /** What _get_cmd_completions reads: the command table (several names may map
      to the same object), the --debug flag, the reverse key bindings of normal
      mode, and the aliases section of the configuration in its iteration order
      as (alias, command) pairs. */
  datatype CommandRegistry = CommandRegistry(
    cmdDict: map<string, Command>,
    argsDebug: bool,
    keys: map<string, seq<string>>,
    aliases: seq<(string, string)>)

  /** A command is offered unless it is deprecated, hidden while hidden commands
      are not wanted, or a debug command while --debug is off. */
  predicate Shown(c: Command, argsDebug: bool, includeHidden: bool): (b: bool)
    ensures b ==> !c.deprecated
    ensures b && !includeHidden ==> !c.hide
    ensures b && !argsDebug ==> !c.debug
    ensures !c.deprecated && !c.hide && !c.debug ==> b
    ensures includeHidden && argsDebug ==> (b <==> !c.deprecated)
  {
    !c.deprecated && !(c.hide && !includeHidden) && !(c.debug && !argsDebug)
  }

  /** The distinct command objects that get an entry. */
  function ListedCommands(reg: CommandRegistry, includeHidden: bool): (r: set<Command>)
    ensures r <= reg.cmdDict.Values
    ensures forall c :: c in reg.cmdDict.Values && Shown(c, reg.argsDebug, includeHidden) ==> c in r
    ensures forall c :: c in r ==> Shown(c, reg.argsDebug, includeHidden)
  {
    set c | c in reg.cmdDict.Values && Shown(c, reg.argsDebug, includeHidden)
  }

  /** cmd_to_keys.get(name, []) */
  function KeysFor(keys: map<string, seq<string>>, name: string): seq<string> {
    if name in keys then keys[name] else []
  }

  /** The bindings column: the keys bound to name, joined by ", "; empty when none is. */
  function Bindings(keys: map<string, seq<string>>, name: string): (r: string)
    ensures KeysFor(keys, name) == [] ==> r == ""
    ensures |KeysFor(keys, name)| == 1 ==> r == keys[name][0]
  {
    Join(KeysFor(keys, name), ", ")
  }

  function CommandEntry(c: Command, prefix: string, keys: map<string, seq<string>>): Item {
    Item(prefix + c.name, c.desc, Bindings(keys, c.name))
  }

  function AliasEntry(alias: (string, string), keys: map<string, seq<string>>): Item {
    Item(alias.0, "Alias for '" + alias.1 + "'", Bindings(keys, alias.0))
  }

  function CommandEntries(cmds: seq<Command>, prefix: string, keys: map<string, seq<string>>): (r: seq<Item>)
    ensures |r| == |cmds|
    ensures forall i :: 0 <= i < |cmds| ==> r[i] == CommandEntry(cmds[i], prefix, keys)
  {
    if cmds == [] then []
    else CommandEntries(cmds[..|cmds| - 1], prefix, keys) + [CommandEntry(cmds[|cmds| - 1], prefix, keys)]
  }

  function AliasEntries(aliases: seq<(string, string)>, keys: map<string, seq<string>>): (r: seq<Item>)
    ensures |r| == |aliases|
    ensures forall i :: 0 <= i < |aliases| ==> r[i] == AliasEntry(aliases[i], keys)
  {
    if aliases == [] then []
    else AliasEntries(aliases[..|aliases| - 1], keys) + [AliasEntry(aliases[|aliases| - 1], keys)]
  }

  function AliasPart(reg: CommandRegistry, includeAliases: bool): seq<Item> {
    if includeAliases then AliasEntries(reg.aliases, reg.keys) else []
  }

  /** What _get_cmd_completions may return: one entry per listed command object,
      in the unspecified order of set iteration, then the alias entries. */
  ghost predicate IsCmdCompletions(r: seq<Item>, reg: CommandRegistry, includeHidden: bool,
                                   includeAliases: bool, prefix: string)
  {
    exists listed: seq<Command> ::
      Enumerates(listed, ListedCommands(reg, includeHidden))
      && r == CommandEntries(listed, prefix, reg.keys) + AliasPart(reg, includeAliases)
  }

  /** Whatever order the command objects come in, every listed object has exactly
      one entry among the first |ListedCommands| rows, those rows hold nothing
      else, and the alias rows follow them. */
  lemma CmdCompletionsShape(listed: seq<Command>, reg: CommandRegistry, includeHidden: bool,
                            includeAliases: bool, prefix: string)
    requires Enumerates(listed, ListedCommands(reg, includeHidden))
    ensures var r := CommandEntries(listed, prefix, reg.keys) + AliasPart(reg, includeAliases);
            var n := |ListedCommands(reg, includeHidden)|;
            && |r| == n + |AliasPart(reg, includeAliases)|
            && (forall c :: c in ListedCommands(reg, includeHidden) ==> CommandEntry(c, prefix, reg.keys) in r[..n])
            && (forall i :: 0 <= i < n ==> exists c :: c in ListedCommands(reg, includeHidden) && r[i] == CommandEntry(c, prefix, reg.keys))
            && r[n..] == AliasPart(reg, includeAliases)
  {
    EnumerationLength(listed, ListedCommands(reg, includeHidden));
    var r := CommandEntries(listed, prefix, reg.keys) + AliasPart(reg, includeAliases);
    var n := |listed|;
    assert r[..n] == CommandEntries(listed, prefix, reg.keys);
    forall c | c in ListedCommands(reg, includeHidden)
      ensures CommandEntry(c, prefix, reg.keys) in r[..n]
    {
      var i :| 0 <= i < n && listed[i] == c;
      assert r[..n][i] == CommandEntry(c, prefix, reg.keys);
    }
    forall i | 0 <= i < n
      ensures exists c :: c in ListedCommands(reg, includeHidden) && r[i] == CommandEntry(c, prefix, reg.keys)
    {
      assert listed[i] in ListedCommands(reg, includeHidden);
    }
  }

  /** The first loop of _get_cmd_completions: one row per shown command object,
      in the order the set of objects is iterated. */
  method CommandRows(reg: CommandRegistry, includeHidden: bool, prefix: string)
    returns (rows: seq<Item>, ghost listed: seq<Command>)
    ensures Enumerates(listed, ListedCommands(reg, includeHidden))
    ensures rows == CommandEntries(listed, prefix, reg.keys)
  {
    var objs := reg.cmdDict.Values;
    var remaining := objs;
    listed := [];
    rows := [];
    while remaining != {}
      invariant remaining <= objs
      invariant Distinct(listed)
      invariant forall c :: c in listed <==> c in objs && c !in remaining && Shown(c, reg.argsDebug, includeHidden)
      invariant rows == CommandEntries(listed, prefix, reg.keys)
      decreases remaining
    {
      var obj :| obj in remaining;
      remaining := remaining - {obj};
      var hideDebug := obj.debug && !reg.argsDebug;
      var hideHidden := obj.hide && !includeHidden;
      if !(hideDebug || hideHidden || obj.deprecated) {
        var bindings := Join(KeysFor(reg.keys, obj.name), ", ");
        rows := rows + [Item(prefix + obj.name, obj.desc, bindings)];
        listed := listed + [obj];
      }
    }
  }

  /** The second loop of _get_cmd_completions: one row per alias, in the order of
      the aliases section. */
  method AliasRows(reg: CommandRegistry) returns (rows: seq<Item>)
    ensures rows == AliasEntries(reg.aliases, reg.keys)
  {
    rows := [];
    for i := 0 to |reg.aliases|
      invariant rows == AliasEntries(reg.aliases[..i], reg.keys)
    {
      var (name, cmd) := reg.aliases[i];
      var bindings := Join(KeysFor(reg.keys, name), ", ");
      rows := rows + [Item(name, "Alias for '" + cmd + "'", bindings)];
      assert reg.aliases[..i + 1][..i] == reg.aliases[..i];
    }
    assert reg.aliases[..|reg.aliases|] == reg.aliases;
  }

  /** _get_cmd_completions: the completion rows for commands and, when
      includeAliases holds, aliases. The command table must not be empty. */
  method GetCmdCompletions(reg: CommandRegistry, includeHidden: bool, includeAliases: bool, prefix: string)
    returns (cmdlist: seq<Item>)
    requires |reg.cmdDict| > 0
    ensures IsCmdCompletions(cmdlist, reg, includeHidden, includeAliases, prefix)
    ensures var n := |ListedCommands(reg, includeHidden)|;
            && |cmdlist| == n + |AliasPart(reg, includeAliases)|
            && (forall c :: c in ListedCommands(reg, includeHidden) ==> CommandEntry(c, prefix, reg.keys) in cmdlist[..n])
            && (forall i :: 0 <= i < n ==> exists c :: c in ListedCommands(reg, includeHidden) && cmdlist[i] == CommandEntry(c, prefix, reg.keys))
            && cmdlist[n..] == AliasPart(reg, includeAliases)
  {
    ghost var listed;
    cmdlist, listed := CommandRows(reg, includeHidden, prefix);
    if includeAliases {
      var aliasRows := AliasRows(reg);
      cmdlist := cmdlist + aliasRows;
    }
    assert cmdlist == CommandEntries(listed, prefix, reg.keys) + AliasPart(reg, includeAliases);
    CmdCompletionsShape(listed, reg, includeHidden, includeAliases, prefix);
  }

  /** The ":command" completion: visible commands, then aliases. */
  method CommandCompletion(reg: CommandRegistry) returns (model: CompletionModel)
    requires |reg.cmdDict| > 0
    ensures fresh(model)
    ensures |model.categories| == 1 && model.categories[0].title == "Commands"
    ensures IsCmdCompletions(model.categories[0].items, reg, false, true, "")
  {
    model := new CompletionModel();
    var cmdlist := GetCmdCompletions(reg, false, true, "");
    AddCategory(model, "Commands", cmdlist);
  }

  /** The ":bind" completion: every command, hidden ones included, then aliases.
      The key being bound is not used. */
  method BindCompletion(reg: CommandRegistry, key: string) returns (model: CompletionModel)
    requires |reg.cmdDict| > 0
    ensures fresh(model)
    ensures |model.categories| == 1 && model.categories[0].title == "Commands"
    ensures IsCmdCompletions(model.categories[0].items, reg, true, true, "")
  {
    model := new CompletionModel();
    var cmdlist := GetCmdCompletions(reg, true, true, "");
    AddCategory(model, "Commands", cmdlist);
  }

  /** :command and :bind offer the same command objects except the hidden ones,
      which only :bind offers; :help offers the same objects as :bind. */
  lemma CallerFlags(reg: CommandRegistry)
    ensures ListedCommands(reg, false) == ListedCommands(reg, true) - set c | c in reg.cmdDict.Values && c.hide
    ensures forall c :: c in ListedCommands(reg, false) ==> !c.hide
  {
  }

  /** Every row of a prefixed listing that is not an alias row starts with the
      prefix, and no alias row is produced without includeAliases. */
  lemma {:induction false} HelpTopicRows(r: seq<Item>, reg: CommandRegistry, prefix: string)
    requires IsCmdCompletions(r, reg, true, false, prefix)
    ensures |r| == |ListedCommands(reg, true)|
    ensures forall i :: 0 <= i < |r| ==> StartsWith(r[i].name, prefix)
  {
    var listed: seq<Command> :| Enumerates(listed, ListedCommands(reg, true))
                  && r == CommandEntries(listed, prefix, reg.keys) + AliasPart(reg, false);
    CmdCompletionsShape(listed, reg, true, false, prefix);
    forall i | 0 <= i < |r| ensures StartsWith(r[i].name, prefix) {
      assert r[i].name == prefix + listed[i].name;
      assert r[i].name[..|prefix|] == prefix;
    }
  }

  // ---------------------------------------------------------------------------
  // Settings topics of :help

  /** A section of the settings data: its name, its options in order, and its
      option descriptions; None when the section has no descriptions at all. */
  datatype Section = Section(name: string, options: seq<string>, descriptions: Option<map<string, string>>)

  predicate Described(sect: Section, opt: string) {
    sect.descriptions.Some? && opt in sect.descriptions.value
  }

  /** A description that is present but empty: it has no first line. */
  predicate EmptyDescription(sect: Section, opt: string) {
    Described(sect, opt) && sect.descriptions.value[opt] == ""
  }

  /** The description column for an option: the first line of its description,
      "" when the section or the option has none (AttributeError, KeyError), and
      IndexError, which is not caught, when the description is the empty string. */
  function SettingDescription(sect: Section, opt: string): (r: Result<string>)
    ensures r.Failure? <==> EmptyDescription(sect, opt)
    ensures r.Failure? ==> r.error == IndexError
    ensures !Described(sect, opt) ==> r == Success("")
    ensures Described(sect, opt) ==> r == FirstLine(sect.descriptions.value[opt])
  {
    match sect.descriptions
    case None => Success("")
    case Some(d) => if opt !in d then Success("") else FirstLine(d[opt])
  }

  /** The topic name of an option: "section->option". */
  function SettingTopic(section: string, option: string): string {
    section + "->" + option
  }

  /** Index of the first "->" in t, or |t| when there is none. */
  function ArrowAt(t: string): (k: nat)
    ensures k <= |t|
    ensures k < |t| ==> k + 1 < |t| && t[k] == '-' && t[k + 1] == '>'
    ensures forall i :: 0 <= i < k && i + 1 < |t| ==> !(t[i] == '-' && t[i + 1] == '>')
  {
    if |t| < 2 then |t|
    else if t[0] == '-' && t[1] == '>' then 0
    else 1 + ArrowAt(t[1..])
  }

  /** t.split('->', 1) as a pair, or None when t holds no "->". */
  function SplitTopic(t: string): Option<(string, string)> {
    var k := ArrowAt(t);
    if k < |t| then Some((t[..k], t[k + 2..])) else None
  }

  /** A topic name gives back its section and option, for section names that contain no "->". */
  lemma TopicRoundTrip(section: string, option: string)
    requires forall i :: 0 <= i < |section| - 1 ==> !(section[i] == '-' && section[i + 1] == '>')
    ensures SplitTopic(SettingTopic(section, option)) == Some((section, option))
  {
    var t := SettingTopic(section, option);
    var n := |section|;
    assert t[n] == '-' && t[n + 1] == '>';
    forall i | 0 <= i < n ensures !(t[i] == '-' && t[i + 1] == '>') {
      if i + 1 < n { assert t[i + 1] == section[i + 1]; }
    }
    var k := ArrowAt(t);
    assert k == n;
    assert t[..n] == section && t[n + 2..] == option;
  }

  /** The settings rows of one section for the options opts, or the exception
      raised on the first option that has an empty description. */
  function SectionItems(sect: Section, opts: seq<string>): (r: Result<seq<Item>>)
    ensures r.Success? <==> forall j :: 0 <= j < |opts| ==> !EmptyDescription(sect, opts[j])
    ensures r.Failure? ==> r.error == IndexError
    ensures r.Success? ==> |r.value| == |opts|
    ensures r.Success? ==> forall j :: 0 <= j < |opts| ==>
              r.value[j] == Item(SettingTopic(sect.name, opts[j]), SettingDescription(sect, opts[j]).value, "")
  {
    if opts == [] then Success([])
    else
      var opt := opts[|opts| - 1];
      match SectionItems(sect, opts[..|opts| - 1])
      case Failure(e) => Failure(e)
      case Success(items) =>
        match SettingDescription(sect, opt)
        case Failure(e) => Failure(e)
        case Success(d) => Success(items + [Item(SettingTopic(sect.name, opt), d, "")])
  }

  /** The settings rows of all sections in order, or the first exception. */
  function SettingItems(data: seq<Section>): (r: Result<seq<Item>>)
    ensures r.Success? <==> forall k :: 0 <= k < |data| ==> SectionItems(data[k], data[k].options).Success?
    ensures r.Failure? ==> r.error == IndexError
  {
    if data == [] then Success([])
    else
      var sect := data[|data| - 1];
      match SettingItems(data[..|data| - 1])
      case Failure(e) => Failure(e)
      case Success(items) =>
        match SectionItems(sect, sect.options)
        case Failure(e) => Failure(e)
        case Success(more) => Success(items + more)
  }

  lemma SectionItemsStep(sect: Section, j: nat)
    requires j < |sect.options|
    requires SectionItems(sect, sect.options[..j]).Success?
    requires SettingDescription(sect, sect.options[j]).Success?
    ensures SectionItems(sect, sect.options[..j + 1])
            == Success(SectionItems(sect, sect.options[..j]).value
                       + [Item(SettingTopic(sect.name, sect.options[j]), SettingDescription(sect, sect.options[j]).value, "")])
  {
    assert sect.options[..j + 1][..j] == sect.options[..j];
  }

  lemma SettingItemsStep(data: seq<Section>, k: nat)
    requires k < |data|
    requires SettingItems(data[..k]).Success?
    requires SectionItems(data[k], data[k].options).Success?
    ensures SettingItems(data[..k + 1])
            == Success(SettingItems(data[..k]).value + SectionItems(data[k], data[k].options).value)
  {
    assert data[..k + 1][..k] == data[..k];
  }

  /** The inner loop of the settings part of ":help": appends one row per option
      of sect to category cat, and stops with the exception raised by the first
      option whose description is empty. */
  method AddSectionSettings(model: CompletionModel, cat: nat, sect: Section) returns (r: Result<seq<Item>>)
    requires cat < |model.categories|
    modifies model
    ensures r == SectionItems(sect, sect.options)
    ensures r.Success? ==> model.categories == old(model.categories)[cat := Category(old(model.categories)[cat].title, old(model.categories)[cat].items + r.value)]
  {
    ghost var title, before := model.categories[cat].title, model.categories[cat].items;
    assert sect.options[..0] == [];
    assert before + SectionItems(sect, sect.options[..0]).value == before;
    assert model.categories == model.categories[cat := Category(title, before)];
    for j := 0 to |sect.options|
      invariant SectionItems(sect, sect.options[..j]).Success?
      invariant model.categories == old(model.categories)[cat := Category(title, before + SectionItems(sect, sect.options[..j]).value)]
    {
      var opt := sect.options[j];
      var desc := SettingDescription(sect, opt);
      if desc.Failure? {
        assert !SectionItems(sect, sect.options).Success?;
        return Failure(desc.error);
      }
      var item := Item(SettingTopic(sect.name, opt), desc.value, "");
      ghost var done := SectionItems(sect, sect.options[..j]).value;
      model.NewItem(cat, item);
      SectionItemsStep(sect, j);
      assert (before + done) + [item] == before + (done + [item]);
    }
    assert sect.options[..|sect.options|] == sect.options;
    r := SectionItems(sect, sect.options);
  }

  /** The ":help" completion: every command with a ":" prefix, hidden ones
      included and no aliases, then a "section->option" row per setting. */
  method HelpTopicCompletion(reg: CommandRegistry, data: seq<Section>) returns (r: Result<CompletionModel>)
    requires |reg.cmdDict| > 0
    ensures r.Failure? <==> SettingItems(data).Failure?
    ensures r.Failure? ==> r.error == IndexError
    ensures r.Success? ==> fresh(r.value)
    ensures r.Success? ==> |r.value.categories| == 2 && r.value.categories[0].title == "Commands"
    ensures r.Success? ==> IsCmdCompletions(r.value.categories[0].items, reg, true, false, ":")
    ensures r.Success? ==> r.value.categories[1] == Category("Settings", SettingItems(data).value)
  {
    var model := new CompletionModel();
    var cmdlist := GetCmdCompletions(reg, true, false, ":");
    AddCategory(model, "Commands", cmdlist);
    var cat := model.NewCategory("Settings");
    for k := 0 to |data|
      invariant SettingItems(data[..k]).Success?
      invariant model.categories == [Category("Commands", cmdlist), Category("Settings", SettingItems(data[..k]).value)]
    {
      var rows := AddSectionSettings(model, cat, data[k]);
      if rows.Failure? {
        assert !SectionItems(data[k], data[k].options).Success?;
        return Failure(rows.error);
      }
      SettingItemsStep(data, k);
    }
    assert data[..|data|] == data;
    r := Success(model);
  }

  // ---------------------------------------------------------------------------
  // Quickmarks, bookmarks and sessions

  /** One row per (first, second) pair, in order. */
  function PairItems(pairs: seq<(string, string)>): seq<Item> {
    seq(|pairs|, i requires 0 <= i < |pairs| => Item(pairs[i].0, pairs[i].1, ""))
  }

  /** The quickmark completion: one (name, url) row per quickmark. */
  method QuickmarkCompletion(marks: seq<(string, string)>) returns (model: CompletionModel)
    ensures fresh(model)
    ensures model.categories == [Category("Quickmarks", PairItems(marks))]
  {
    model := new CompletionModel();
    AddCategory(model, "Quickmarks", PairItems(marks));
  }

  /** The bookmark completion: one (url, title) row per bookmark. */
  method BookmarkCompletion(marks: seq<(string, string)>) returns (model: CompletionModel)
    ensures fresh(model)
    ensures model.categories == [Category("Bookmarks", PairItems(marks))]
  {
    model := new CompletionModel();
    AddCategory(model, "Bookmarks", PairItems(marks));
  }

  /** The session names offered: those not starting with '_', in listing order. */
  function VisibleSessions(names: seq<string>): (r: seq<string>)
    ensures forall x :: x in r <==> x in names && !StartsWith(x, "_")
    ensures |r| <= |names|
  {
    if names == [] then []
    else
      var rest := VisibleSessions(names[..|names| - 1]);
      var x := names[|names| - 1];
      assert names == names[..|names| - 1] + [x];
      if StartsWith(x, "_") then rest else rest + [x]
  }

  /** Filtering keeps the listing order: it distributes over concatenation. */
  lemma {:induction false} VisibleSessionsAppend(a: seq<string>, b: seq<string>)
    ensures VisibleSessions(a + b) == VisibleSessions(a) + VisibleSessions(b)
    decreases |b|
  {
    if b != [] {
      var b' := b[..|b| - 1];
      assert (a + b)[..|a + b| - 1] == a + b';
      VisibleSessionsAppend(a, b');
    } else {
      assert a + b == a;
    }
  }

  function NameItems(names: seq<string>): (r: seq<Item>)
    ensures |r| == |names|
    ensures forall i :: 0 <= i < |names| ==> r[i] == Item(names[i], "", "")
  {
    if names == [] then [] else NameItems(names[..|names| - 1]) + [Item(names[|names| - 1], "", "")]
  }

  /** The session completion. listing is the session manager's list of names, or
      None when listing them raised OSError, which is logged and leaves the
      "Sessions" category empty. */
  method SessionCompletion(listing: Option<seq<string>>) returns (model: CompletionModel)
    ensures fresh(model)
    ensures listing.None? ==> model.categories == [Category("Sessions", [])]
    ensures listing.Some? ==> model.categories == [Category("Sessions", NameItems(VisibleSessions(listing.value)))]
  {
    model := new CompletionModel();
    var cat := model.NewCategory("Sessions");
    if listing.Some? {
      var names := listing.value;
      for i := 0 to |names|
        invariant model.categories == [Category("Sessions", NameItems(VisibleSessions(names[..i])))]
      {
        var name := names[i];
        assert names[..i + 1][..i] == names[..i];
        if !StartsWith(name, "_") {
          model.NewItem(cat, Item(name, "", ""));
          ghost var vs := VisibleSessions(names[..i]);
          assert (vs + [name])[..|vs|] == vs;
        }
      }
      assert names[..|names|] == names;
    }
  }

  // ---------------------------------------------------------------------------
  // Open tabs

  datatype Tab = Tab(url: string, title: string)

  /** A window of the window registry with its tabs in tab-bar order. */
  datatype Window = Window(id: nat, shuttingDown: bool, tabs: seq<Tab>)

  /** The registry is keyed by window id. */
  predicate DistinctIds(windows: seq<Window>) {
    forall i, j :: 0 <= i < j < |windows| ==> windows[i].id != windows[j].id
  }

  /** The id column of tab idx (counted from 0) of window win: "win/idx+1". */
  function BufferId(win: nat, idx: nat): (id: string)
    ensures Split(id, '/') == [NatToString(win), NatToString(idx + 1)]
  {
    var a, b := NatToString(win), NatToString(idx + 1);
    assert '/' !in a && '/' !in b;
    SplitJoin([a, b], '/');
    assert Join([a, b], "/") == a + "/" + b;
    a + "/" + b
  }

  /** The rows of the first n tabs of a window. */
  function TabItems(w: Window, n: nat): (r: seq<Item>)
    requires n <= |w.tabs|
    ensures |r| == n
    ensures forall i :: 0 <= i < n ==> r[i] == Item(BufferId(w.id, i), w.tabs[i].url, w.tabs[i].title)
  {
    if n == 0 then [] else TabItems(w, n - 1) + [Item(BufferId(w.id, n - 1), w.tabs[n - 1].url, w.tabs[n - 1].title)]
  }

  /** c is the category of some window of the registry that is not shutting down. */
  ghost predicate OpenWindowCategory(windows: seq<Window>, c: Category) {
    exists i :: 0 <= i < |windows| && !windows[i].shuttingDown
      && c == Category(NatToString(windows[i].id), TabItems(windows[i], |windows[i].tabs|))
  }

  /** One category per window that is not shutting down, titled by its id. */
  function BufferCategories(windows: seq<Window>): (r: seq<Category>)
    ensures |r| <= |windows|
    ensures forall k :: 0 <= k < |r| ==> OpenWindowCategory(windows, r[k])
  {
    if windows == [] then []
    else
      var w := windows[|windows| - 1];
      var rest := BufferCategories(windows[..|windows| - 1]);
      CategoriesOfPrefix(windows, rest);
      if w.shuttingDown then rest
      else rest + [Category(NatToString(w.id), TabItems(w, |w.tabs|))]
  }

  /** A category of an open window of a prefix of the registry is one of the whole registry. */
  lemma CategoriesOfPrefix(windows: seq<Window>, cats: seq<Category>)
    requires windows != []
    requires forall k :: 0 <= k < |cats| ==> OpenWindowCategory(windows[..|windows| - 1], cats[k])
    ensures forall k :: 0 <= k < |cats| ==> OpenWindowCategory(windows, cats[k])
  {
    var init := windows[..|windows| - 1];
    forall k | 0 <= k < |cats| ensures OpenWindowCategory(windows, cats[k]) {
      var i :| 0 <= i < |init| && !init[i].shuttingDown
               && cats[k] == Category(NatToString(init[i].id), TabItems(init[i], |init[i].tabs|));
      assert init[i] == windows[i];
    }
  }

  /** The buffer completion over the window registry, in its order. */
  method BufferCompletion(windows: seq<Window>) returns (model: CompletionModel)
    ensures fresh(model)
    ensures model.categories == BufferCategories(windows)
  {
    model := new CompletionModel();
    for k := 0 to |windows|
      invariant model.categories == BufferCategories(windows[..k])
    {
      var w := windows[k];
      assert windows[..k + 1][..k] == windows[..k];
      if !w.shuttingDown {
        var c := model.NewCategory(NatToString(w.id));
        for idx := 0 to |w.tabs|
          invariant model.categories == BufferCategories(windows[..k]) + [Category(NatToString(w.id), TabItems(w, idx))]
        {
          model.NewItem(c, Item(BufferId(w.id, idx), w.tabs[idx].url, w.tabs[idx].title));
        }
      }
    }
    assert windows[..|windows|] == windows;
  }

  predicate HasWindow(windows: seq<Window>, win: nat) {
    exists k :: 0 <= k < |windows| && windows[k].id == win
  }

  /** What closing a buffer asks for: close tab `tab` (counted from 0) of window `win`. */
  datatype CloseRequest = CloseRequest(win: nat, tab: int)

  /** delete_buffer on the id column of the selected row: split on '/', look the
      window up (KeyError when it is not registered) and ask it to close tab
      int(tab) - 1. A malformed id raises ValueError. */
  function DeleteBuffer(id: string, windows: seq<Window>): (r: Result<CloseRequest>)
    ensures |Split(id, '/')| != 2 ==> r == Failure(ValueError)
    ensures r.Failure? ==> r.error == ValueError || r.error == KeyError
    ensures r.Failure? && r.error == KeyError ==>
              ParseNat(Split(id, '/')[0]).Success? && !HasWindow(windows, ParseNat(Split(id, '/')[0]).value)
    ensures r.Success? ==> HasWindow(windows, r.value.win)
    ensures r.Success? ==> |Split(id, '/')| == 2 && ParseNat(Split(id, '/')[0]) == Success(r.value.win)
    ensures r.Success? ==> ParseNat(Split(id, '/')[1]) == Success(r.value.tab + 1)
    ensures |Split(id, '/')| == 2 && ParseNat(Split(id, '/')[0]).Failure? ==> r == Failure(ValueError)
    ensures |Split(id, '/')| == 2 && ParseNat(Split(id, '/')[0]).Success?
            && !HasWindow(windows, ParseNat(Split(id, '/')[0]).value) ==>
              r == Failure(KeyError)
    ensures |Split(id, '/')| == 2 && ParseNat(Split(id, '/')[0]).Success?
            && HasWindow(windows, ParseNat(Split(id, '/')[0]).value)
            && ParseNat(Split(id, '/')[1]).Failure? ==>
              r == Failure(ValueError)
    ensures |Split(id, '/')| == 2 && ParseNat(Split(id, '/')[0]).Success?
            && HasWindow(windows, ParseNat(Split(id, '/')[0]).value)
            && ParseNat(Split(id, '/')[1]).Success? ==>
              r == Success(CloseRequest(ParseNat(Split(id, '/')[0]).value, ParseNat(Split(id, '/')[1]).value - 1))
  {
    var parts := Split(id, '/');
    if |parts| != 2 then Failure(ValueError)
    else match ParseNat(parts[0])
      case Failure(e) => Failure(e)
      case Success(win) =>
        if !HasWindow(windows, win) then Failure(KeyError)
        else match ParseNat(parts[1])
          case Failure(e) => Failure(e)
          case Success(t) => Success(CloseRequest(win, t - 1))
  }

  /** Closing the row of tab idx of a registered window closes exactly that tab. */
  lemma BufferIdRoundTrip(windows: seq<Window>, k: nat, idx: nat)
    requires k < |windows|
    ensures DeleteBuffer(BufferId(windows[k].id, idx), windows) == Success(CloseRequest(windows[k].id, idx))
  {
    ParseNatToString(windows[k].id);
    ParseNatToString(idx + 1);
  }

  /** Conversely, an id that delete_buffer accepts, written as str() writes
      numbers and naming a tab from 1 on, is the id of the tab it closes. */
  lemma BufferIdFromRequest(id: string, windows: seq<Window>, win: nat, tab: int)
    requires DeleteBuffer(id, windows) == Success(CloseRequest(win, tab))
    requires forall p :: p in Split(id, '/') ==> Canonical(p)
    requires tab >= 0
    ensures BufferId(win, tab) == id
  {
    var parts := Split(id, '/');
    JoinSplit(id, '/');
    assert id == parts[0] + "/" + parts[1];
    NatToStringOfParse(parts[0]);
    NatToStringOfParse(parts[1]);
  }

  /** Every row of the buffer completion closes, when deleted, the tab it shows,
      in a window that is not shutting down and whose id titles the row's category. */
  lemma BufferModelRoundTrip(windows: seq<Window>, k: nat, j: nat)
    requires k < |BufferCategories(windows)|
    requires j < |BufferCategories(windows)[k].items|
    ensures exists i :: 0 <= i < |windows| && !windows[i].shuttingDown
              && BufferCategories(windows)[k].title == NatToString(windows[i].id)
              && j < |windows[i].tabs|
              && BufferCategories(windows)[k].items[j] == Item(BufferId(windows[i].id, j), windows[i].tabs[j].url, windows[i].tabs[j].title)
              && DeleteBuffer(BufferCategories(windows)[k].items[j].name, windows) == Success(CloseRequest(windows[i].id, j))
  {
    var i :| 0 <= i < |windows| && !windows[i].shuttingDown
             && BufferCategories(windows)[k] == Category(NatToString(windows[i].id), TabItems(windows[i], |windows[i].tabs|));
    BufferIdRoundTrip(windows, i, j);
  }

  lemma NatToStringInjective(a: nat, b: nat)
    requires NatToString(a) == NatToString(b)
    ensures a == b
  {
    ParseNatToString(a);
    ParseNatToString(b);
  }

  /** A window that is not shutting down has its category. */
  lemma {:induction false} OpenWindowHasCategory(windows: seq<Window>, i: nat)
    requires i < |windows|
    requires !windows[i].shuttingDown
    ensures Category(NatToString(windows[i].id), TabItems(windows[i], |windows[i].tabs|)) in BufferCategories(windows)
  {
    var n := |windows| - 1;
    if i < n {
      OpenWindowHasCategory(windows[..n], i);
    }
  }

  /** In a registry keyed by id, a window gets a category exactly when it is not
      shutting down. */
  lemma BufferCategoryIff(windows: seq<Window>, i: nat)
    requires DistinctIds(windows)
    requires i < |windows|
    ensures (exists c :: c in BufferCategories(windows) && c.title == NatToString(windows[i].id))
            <==> !windows[i].shuttingDown
  {
    var w := windows[i];
    var cats := BufferCategories(windows);
    if !w.shuttingDown {
      OpenWindowHasCategory(windows, i);
    } else {
      forall c | c in cats ensures c.title != NatToString(w.id) {
        var k :| 0 <= k < |cats| && cats[k] == c;
        var j :| 0 <= j < |windows| && !windows[j].shuttingDown
                 && cats[k] == Category(NatToString(windows[j].id), TabItems(windows[j], |windows[j].tabs|));
        if c.title == NatToString(w.id) {
          NatToStringInjective(windows[j].id, w.id);
          assert false;
        }
      }
    }
  }
}
