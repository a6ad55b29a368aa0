# qutebrowser completion builders and venv script, modelled in Dafny

This project models two parts of qutebrowser.

The first is the set of miscellaneous completion builders, `qutebrowser/completion/models/miscmodels.py`:

- the command list behind `:command`, `:help` and `:bind`, with its filter on hidden, debug and deprecated commands, the key bindings column and the alias rows;
- the settings topics of `:help`, named `section->option` and described by the first line of the option's description;
- the quickmark, bookmark and session lists, sessions starting with `_` being skipped;
- the open-tabs list, with one category per window and one row per tab whose id is `win/idx+1`, and `delete_buffer`, which reads that id back to close the tab.

A completion model is a class holding a sequence of categories, each with its rows in the order they were added. Every builder is a method that creates one and fills it with `new_category` / `new_item` calls inside loops, as the source does. Each registry the builders read is passed in as a plain value: the command table, the `--debug` flag, the reverse key bindings, the aliases, the settings data, the marks, the session listing and the window registry.

The second is the virtualenv set-up script, `scripts/mkvenv.py`:

- the PyQt versions offered, read from the requirements file names, deduplicated, sorted by their numeric components and followed by `auto`;
- the requirements file of a version;
- the message for the deprecated tox environments;
- the plan of `main`: the steps it takes for the parsed flags, in order.

The script's effects are not performed. Removing and creating the venv, pip installs, linking PyQt, printing the error, exiting and raising are all values of a `Step` datatype, and `MainPlan` returns the list of them.

Python's own behaviour that the code depends on is written out in `py_builtins.dfy`:

- `str.join`, and `str.split` with a one-character separator;
- `str.splitlines()[0]`, which raises IndexError on the empty string;
- `str(n)` and `int(s)` for non-negative decimal numbers;
- the exceptions that escape, as a `Result` datatype.

Python sets are iterated in an unspecified order. Where the source loops over a set, the model picks an arbitrary remaining element. Its contracts then say that the rows come from *some* sequence listing every element of the set exactly once (`Collections.Enumerates`).

Files:

- `py_builtins.dfy`: module `PyBuiltins`.
- `collections.dfy`: module `Collections`.
- `completion_model.dfy`: module `CompletionModels`, the completion model class.
- `misc_models.dfy`: module `MiscModels`, the builders.
- `mkvenv.dfy`: module `Mkvenv`.

## Model

| member | source | states |
|---|---|---|
| PyBuiltins.NatToString | qutebrowser/completion/models/miscmodels.py:131 | `str(n)` writes a non-empty digit string with no leading zero, beginning with '0' exactly when n is 0 |
| PyBuiltins.ParseNatToString | qutebrowser/completion/models/miscmodels.py:115-118 | `int(str(n)) == n` for every n >= 0 |
| PyBuiltins.NatToStringOfParse | qutebrowser/completion/models/miscmodels.py:115-118 | every digit string without a leading zero is parsed by `int`, and `str` of the result gives it back |
| PyBuiltins.ParseNat | qutebrowser/completion/models/miscmodels.py:117-118 | `int(s)` succeeds exactly on a non-empty string of decimal digits, and raises ValueError otherwise |
| PyBuiltins.Join | qutebrowser/completion/models/miscmodels.py:172 | `sep.join` of no parts is "", of one part is that part, and its length is the parts' total length plus one separator between each two |
| PyBuiltins.Split | qutebrowser/completion/models/miscmodels.py:115 | `s.split(sep)` gives at least one piece and no piece contains the separator |
| PyBuiltins.JoinSplit | qutebrowser/completion/models/miscmodels.py:115 | joining the pieces of a split with the separator gives back the string |
| PyBuiltins.SplitJoin | qutebrowser/completion/models/miscmodels.py:134 | splitting a join of pieces free of the separator gives back the pieces |
| PyBuiltins.FirstLine | qutebrowser/completion/models/miscmodels.py:60 | `s.splitlines()[0]` fails with IndexError exactly on "", and otherwise is the prefix of s up to its first line boundary, which it does not contain |
| Collections.EnumerationLength | qutebrowser/completion/models/miscmodels.py:168 | a sequence listing each element of a set once has as many elements as the set |
| CompletionModels.CompletionModel.constructor | qutebrowser/completion/models/miscmodels.py:32 | a new model has no categories |
| CompletionModels.CompletionModel.NewCategory | qutebrowser/completion/models/miscmodels.py:34 | appends an empty category with the title and returns its position |
| CompletionModels.CompletionModel.NewItem | qutebrowser/completion/models/miscmodels.py:35-36 | appends the row to the given category; every other category is unchanged |
| MiscModels.AddCategory | qutebrowser/completion/models/miscmodels.py:34-36 | a new category followed by one `new_item` per row leaves the model with that category, holding exactly those rows in order, appended |
| MiscModels.Shown | qutebrowser/completion/models/miscmodels.py:169-171 | a shown command is never deprecated, is not hidden unless hidden ones are included, and is not a debug command unless --debug is on. A command with none of the three flags is always shown, and with both options on exactly the non-deprecated ones are |
| MiscModels.ListedCommands | qutebrowser/completion/models/miscmodels.py:168-171 | the listed objects are exactly the distinct command objects of the table that pass the filter |
| MiscModels.Bindings | qutebrowser/completion/models/miscmodels.py:172 | the bindings column is "" for a name with no keys, and the key itself when exactly one is bound |
| MiscModels.CommandEntries | qutebrowser/completion/models/miscmodels.py:172-173 | the i-th command row is (prefix + name, desc, joined bindings) of the i-th command |
| MiscModels.AliasEntries | qutebrowser/completion/models/miscmodels.py:175-178 | the i-th alias row is (alias, "Alias for '<cmd>'", bindings of the alias), with no prefix |
| MiscModels.CmdCompletionsShape | qutebrowser/completion/models/miscmodels.py:168-178 | the command rows come first and are exactly as many as the distinct shown command objects. Each shown object has its row among them, and every one of them is the row of a shown object. The alias rows follow, and there are none without include_aliases |
| MiscModels.CommandRows | qutebrowser/completion/models/miscmodels.py:166-173 | the first loop lists each distinct command object of the table once, exactly when it is not deprecated, not hidden while hidden ones are excluded and not a debug command without --debug, and gives its row |
| MiscModels.AliasRows | qutebrowser/completion/models/miscmodels.py:175-178 | the second loop gives exactly one alias row per alias, in the order of the aliases section |
| MiscModels.GetCmdCompletions | qutebrowser/completion/models/miscmodels.py:155-180 | the result is the command rows in set-iteration order followed by the alias rows when asked for, with the shape facts above; the table must not be empty |
| MiscModels.CommandCompletion | qutebrowser/completion/models/miscmodels.py:30-37 | one "Commands" category holding the command list with hidden commands excluded, aliases included and no prefix |
| MiscModels.BindCompletion | qutebrowser/completion/models/miscmodels.py:140-152 | one "Commands" category holding the command list with hidden commands and aliases included; the key is ignored |
| MiscModels.CallerFlags | qutebrowser/completion/models/miscmodels.py:33 | the objects `:command` lists are those `:bind` and `:help` list minus the hidden ones |
| MiscModels.HelpTopicRows | qutebrowser/completion/models/miscmodels.py:44-45 | the `:help` command rows have one row per shown object, and every row name starts with ":" |
| MiscModels.SettingDescription | qutebrowser/completion/models/miscmodels.py:53-60 | the description is "" for an undescribed section or option, the first line of the description otherwise, and IndexError exactly when that description is empty |
| MiscModels.TopicRoundTrip | qutebrowser/completion/models/miscmodels.py:61 | a topic "section->option" splits back at its first "->" into its section and option, whenever the section name itself holds no "->" |
| MiscModels.SectionItems | qutebrowser/completion/models/miscmodels.py:52-62 | the rows of a section are one (topic, description, "") per option in order, and the section fails with IndexError exactly when one of its options has an empty description |
| MiscModels.SettingItems | qutebrowser/completion/models/miscmodels.py:51-62 | the settings rows fail with IndexError exactly when some section fails |
| MiscModels.AddSectionSettings | qutebrowser/completion/models/miscmodels.py:52-62 | the inner loop adds exactly the section's rows to the "Settings" category, or stops with the section's exception |
| MiscModels.HelpTopicCompletion | qutebrowser/completion/models/miscmodels.py:40-63 | `:help` fails with IndexError exactly when a setting has an empty description. Otherwise it yields a "Commands" category of ":"-prefixed rows with hidden commands and no aliases, then "Settings" with all setting rows |
| MiscModels.QuickmarkCompletion | qutebrowser/completion/models/miscmodels.py:66-73 | one "Quickmarks" category with a (name, url) row per quickmark, in order |
| MiscModels.BookmarkCompletion | qutebrowser/completion/models/miscmodels.py:76-83 | one "Bookmarks" category with a (url, title) row per bookmark, in order |
| MiscModels.VisibleSessions | qutebrowser/completion/models/miscmodels.py:91-93 | a name is offered exactly when it is listed and does not start with '_' |
| MiscModels.VisibleSessionsAppend | qutebrowser/completion/models/miscmodels.py:91-93 | the filter keeps the listing order: filtering a concatenation concatenates the filtered parts |
| MiscModels.NameItems | qutebrowser/completion/models/miscmodels.py:93 | one row per name, with empty description and misc |
| MiscModels.SessionCompletion | qutebrowser/completion/models/miscmodels.py:86-96 | a "Sessions" category with a row for each visible session name in order; when listing raises OSError the category is empty and the model is still returned |
| MiscModels.TabItems | qutebrowser/completion/models/miscmodels.py:132-136 | the i-th row of a window is (its id "win/i+1", the tab's url, the tab's title) |
| MiscModels.BufferCategories | qutebrowser/completion/models/miscmodels.py:126-136 | every category comes from a window that is not shutting down, is titled by its id and holds a row per tab |
| MiscModels.BufferCompletion | qutebrowser/completion/models/miscmodels.py:120-137 | the nested loops build exactly the buffer categories of the window registry, in registry order |
| MiscModels.BufferId | qutebrowser/completion/models/miscmodels.py:134 | the id "win/idx+1" of a row splits on '/' into exactly the window id and the tab number counted from 1 |
| MiscModels.DeleteBuffer | qutebrowser/completion/models/miscmodels.py:108-118 | an id that does not split on '/' into two parts raises ValueError. A first part that int() rejects raises ValueError; a window id not in the registry raises KeyError; a registered window with a second part int() rejects raises ValueError; nothing else fails. An id of two parts that int() accepts, on a registered window, succeeds. The window is int() of the first part, and the tab closed is int() of the second part minus 1 |
| MiscModels.BufferIdRoundTrip | qutebrowser/completion/models/miscmodels.py:108-118 | deleting the row of tab idx of a registered window asks that window to close tab idx |
| MiscModels.BufferIdFromRequest | qutebrowser/completion/models/miscmodels.py:115-118 | conversely, an id that `delete_buffer` accepts, written with canonical numbers and naming a tab from 1 on, is the id of the tab it closes |
| MiscModels.BufferModelRoundTrip | qutebrowser/completion/models/miscmodels.py:108-136 | every row of the buffer completion shows a tab of an open window under that window's category, and deleting it closes exactly that tab |
| MiscModels.NatToStringInjective | qutebrowser/completion/models/miscmodels.py:131 | different window ids give different category titles |
| MiscModels.OpenWindowHasCategory | qutebrowser/completion/models/miscmodels.py:129-131 | a window that is not shutting down has its category |
| MiscModels.BufferCategoryIff | qutebrowser/completion/models/miscmodels.py:126-131 | in a registry keyed by id, a window has a category exactly when it is not shutting down |
| Mkvenv.GlobVersion | scripts/mkvenv.py:68 | the version read from a file name is the part of its stem after the last '-': it holds no '-', ends the stem, and is preceded there by a '-' |
| Mkvenv.VersionSet | scripts/mkvenv.py:64-68 | the version set holds exactly the versions read from the matching files, none with a '-' |
| Mkvenv.CollectVersions | scripts/mkvenv.py:64-68 | the loop over the listing builds exactly that version set |
| Mkvenv.ParseAll | scripts/mkvenv.py:71 | the sort key exists exactly when every dotted component is a number, holds each component's value, and otherwise the error is ValueError |
| Mkvenv.KeyLe | scripts/mkvenv.py:70-71 | Python's `<=` on integer lists: the empty list is below every list, a non-empty list is below only a non-empty list whose first element is no smaller, and a smaller first element decides |
| Mkvenv.KeyLeTotal | scripts/mkvenv.py:70-71 | any two keys are comparable |
| Mkvenv.KeyLeTransitive | scripts/mkvenv.py:70-71 | key order is transitive |
| Mkvenv.KeyLeAntisymmetric | scripts/mkvenv.py:70-71 | keys that compare both ways are equal |
| Mkvenv.NumericOrder | scripts/mkvenv.py:70-71 | "5.9" has key [5, 9], "5.10" has key [5, 10], and the first sorts strictly before the second |
| Mkvenv.AutoHasNoKey | scripts/mkvenv.py:72 | "auto" has no numeric key, so it cannot be among the sorted versions |
| Mkvenv.InsertByKey | scripts/mkvenv.py:70 | insertion adds exactly the one element to the multiset |
| Mkvenv.InsertByKeyMembers | scripts/mkvenv.py:70 | after insertion, the members are the old members and the new element |
| Mkvenv.InsertByKeySorted | scripts/mkvenv.py:70 | inserting a version with a key into a key-sorted sequence keeps it sorted |
| Mkvenv.InsertByKeyDistinct | scripts/mkvenv.py:70 | inserting a new version keeps the sequence free of repetitions |
| Mkvenv.PyqtVersions | scripts/mkvenv.py:63-72 | fails with ValueError exactly when some version read from a requirements file has a non-numeric component. Otherwise the result lists every such version exactly once, in ascending key order, followed by "auto" as the last element only |
| Mkvenv.RequirementsFileName | scripts/mkvenv.py:125-127 | "auto" names requirements-pyqt.txt, and any other version v names requirements-pyqt-v.txt |
| Mkvenv.PyqtRequirementsFile | scripts/mkvenv.py:124-127 | the requirements file is always a ".txt" file under misc/requirements/ |
| Mkvenv.RequirementsFileRoundTrip | scripts/mkvenv.py:124-127 | for a version other than "auto" and without '-', the file name matches the version glob and gives the version back |
| Mkvenv.OfferedVersionsRoundTrip | scripts/mkvenv.py:67-68 | every offered version other than "auto" names a file that the version glob matches and that gives the version back; the file need not be in the listing |
| Mkvenv.GlobVersionOfPart | scripts/mkvenv.py:67-68 | a file "requirements-pyqt-p.txt" whose part p holds no '-' matches the glob and reads back exactly p |
| Mkvenv.ListedFileRoundTrip | scripts/mkvenv.py:67-68 | a matching file whose glob part holds no '-' reads back that part, and unless it is "auto" that version names the same file |
| Mkvenv.AutoFileNotListed | scripts/mkvenv.py:125-127 | "auto" names requirements-pyqt.txt, which the version glob does not match |
| Mkvenv.ToxErrorHint | scripts/mkvenv.py:92-100 | "link" points from tox environment "mkvenv" to the options " --pyqt-type link", "binary" from "mkvenv-pypi" to none, and any other type raises AssertionError |
| Mkvenv.ToxErrorMessage | scripts/mkvenv.py:103-104 | the message starts by naming the deprecated tox environment and ends by recommending scripts/mkvenv.py with the hint's options |
| Mkvenv.ToxHintKeepsType | scripts/mkvenv.py:93-98 | the command line the message recommends selects the same PyQt type as the tox environment it replaces |
| Mkvenv.DeleteOldVenv | scripts/mkvenv.py:108-111 | the directory is removed once exactly when it exists |
| Mkvenv.UpgradePip | scripts/mkvenv.py:119-121 | upgrading pip is `pip install -U pip` in the venv |
| Mkvenv.InstallPyqt | scripts/mkvenv.py:177-184 | "binary" installs with `-r <file> --only-binary PyQt5,PyQtWebEngine`, "source" with `-r <file> --verbose --no-binary PyQt5,PyQtWebEngine` (the file of the chosen version), "link" links PyQt; any other type raises AssertionError |
| Mkvenv.InstallRequirements | scripts/mkvenv.py:150-153 | the other dependencies are `pip install -r requirements.txt` in the venv |
| Mkvenv.InstallQutebrowser | scripts/mkvenv.py:156-158 | qutebrowser is `pip install -e .` in the venv |
| Mkvenv.MainPlan | scripts/mkvenv.py:161-187 | with --tox-error, only the message and exit 1 (or AssertionError), and no venv step. Otherwise, without --keep, the old venv is removed if it exists and a new one created, and with --keep neither. Then pip is upgraded and PyQt installed by type, and unless that raised, the requirements and then qutebrowser are installed |

## Left out

- The Qt side of completion models is not modelled. This covers column widths, `dumb_sort`, `columns_to_filter`, index navigation and `qtutils.ensure_valid`. `delete_buffer` is modelled on the text of the selected row's id column.
- The object registry, the config, the key configuration and the session manager are not modelled. Their contents are parameters. Tab URLs and titles are plain strings.
- Logging of the OSError and all coloured printing (`print_col`, `print_title`, the blank `print()` lines) are left out; they only write to the terminal.
- Processes and file-system changes are not performed. `subprocess.run`, `venv.create`, `shutil.rmtree` and `link_pyqt` are `Step` values in the plan. The directory glob is the `listing` parameter.
- `utils.change_cwd` (scripts/mkvenv.py:164) is dropped and has no step: every path of the plan is written relative to the repository root, the directory it changes to.
- `run_venv` and `pip_install` are left out: the `bin`/`Scripts` choice on `os.name` and the exit with a failed child's return code depend on the platform and on child processes.
- `parse_args` is left out: the parsed flags are the `Flags` record. argparse's `choices` check on `--pyqt-version` and `--pyqt-type` is not part of `MainPlan`, which accepts any strings. This is why `MainPlan` covers the AssertionError branches.
- `REPO_ROOT` is the working directory of the paths: the requirements files are `misc/requirements/...`, the other requirements are `requirements.txt` and qutebrowser is installed from `.`.
- MiscModels.Command: command objects are values, so two distinct objects with equal fields count as one. The source iterates over `set(cmd_dict.values())`, which compares objects by identity.
- MiscModels.GetCmdCompletions: the command rows are in the unspecified set-iteration order, so the contract does not say they are sorted. The docstring at qutebrowser/completion/models/miscmodels.py:156 says "sorted by name", but the code never sorts. The docstring at line 161 says the prefix is appended, but line 173 puts it in front of the name; the model follows the code.
- MiscModels.GetCmdCompletions: `assert cmdutils.cmd_dict` is modelled as a precondition, not as an AssertionError result.
- MiscModels.DeleteBuffer: a window id missing from the registry is modelled as KeyError. The window registry's own lookup is not part of this model.
- PyBuiltins.ParseNat: Python's `int()` also accepts a sign, surrounding whitespace, underscores between digits and non-ASCII digits. The model accepts ASCII digit strings only, so `DeleteBuffer` and the version sort key reject those inputs. The ids the buffer completion writes are never of that kind.
- MiscModels.HelpTopicCompletion: the settings data is a sequence of sections. A section whose `descriptions` attribute is missing (AttributeError) has `None`. A description that is not a string is not modelled.
- MiscModels.SessionCompletion: only the OSError of the listing call is caught; any other exception from the session manager is not modelled. The listing is a list computed before the loop, so no row is added before the error.
- Mkvenv.PyqtVersions: versions with equal keys (such as "5.9" and "5.09") are left in unspecified order, as they come from set iteration. The contract states that keys are non-decreasing, not how such ties are broken.
- Mkvenv.OfferedVersionsRoundTrip: does not promise that the file an offered version names is in the listing. A listed file whose glob part holds '-', such as requirements-pyqt-x-5.9.txt, offers 5.9, and requirements-pyqt-5.9.txt may then be missing. The source behaves the same way. `ListedFileRoundTrip` gives the round trip for listed files whose part holds no '-'.
- Mkvenv.InstallPyqt: `install_pyqt_link` finds the venv's library path and links PyQt there; that is one `LinkPyqt` step.
