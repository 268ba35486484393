# Verified models of configuration-library algorithms

A Dafny 4.11 model of the self-contained algorithms in the VyOS configuration
library: the compiler from number ranges to regular expressions, the checkers
of firewall references and the expander they protect, the queue of dependent
scripts, the ordering of address pools, the migration of a configuration file
with its version footer, the reconciliation of NETFLOW rules, backslash
escaping, weight ranges, overlays of nested defaults, and certificate chains.

Check it with `dafny verify dfyconfig.toml`.

| file | models |
|---|---|
| `Decimal.dfy`, `RegexText.dfy` | `str`/`int` on digits; what regular-expression text matches |
| `RangeRegex.dfy` | `python/vyos/range_regex.py` |
| `JumpTargets.dfy` | `verify_jump_target` in `src/conf_mode/firewall.py` |
| `NestedGroups.dfy` | `verify_nested_group` there and `nft_nested_group` in `python/vyos/template.py` |
| `BagOrder.dfy`, `ConfigDep.dfy` | `python/vyos/configdep.py` and the well-founded order behind its termination |
| `PoolOrder.dfy` | `get_pools_in_order` in `python/vyos/accel_ppp_util.py` |
| `ComponentVersion.dfy`, `Migration.dfy` | `component_version.py`, `migrate.py`, `compose_config.py` |
| `Netflow.dfy` | `python/vyos/ipt_netflow.py` |
| `Backslash.dfy` | escaping in `python/vyos/configtree.py` |
| `LoadBalance.dfy` | weight ranges in `wanloadbalance.py` and `nat.py` |
| `DictMerge.dfy`, `MergeDefaults.dfy` | `dict_merge` in `configdict.py`, `merge_defaults` in `config.py` |
| `CertChain.dfy` | `find_parent`, `find_chain` in `python/vyos/pki.py` |

How the main results are put:

- A regular expression is its text. `RegexText.Matches` reads the text and says
  which strings it matches, so `RangeRegex.RegexForRange` is about the very text
  the program prints, and the merge of shared patterns, which compares texts,
  needs no further argument.
- The firewall checkers are methods over explicit lists. What they accept is
  stated on paths in the graph, independent of the traversal; the walk the
  worklist makes only serves the proof.
- A script run in `ConfigDep` is any number of `set_dependents` calls of that
  script, for any of its cases and any tags, then possibly a nested
  `call_dependents`, then possibly an error. Nested drains terminate because
  every step replaces one entry by entries of lower rank; the bag of ranks
  decreases in the multiset order, which `BagOrder` proves well founded.
- Migration scripts are arbitrary functions that succeed or raise, so every
  pattern of failures is covered.

Where the program is stricter or laxer than its messages say:

- `verify_jump_target` reports a loop, and `verify_nested_group` a circular
  reference, also for acyclic graphs in which a chain or nesting group is reached
  twice. `NestedGroups.AcceptedIffTree` gives the exact condition for groups. For
  jumps, `JumpTargets.VerifyJumpTarget` accepts if and only if all reachable chains
  are sound, no cycle is reachable, and no reachable chain has an earlier rule from
  whose target one comes to a jump into what a later rule's target leads to
  (`SharesChains`). `SharedChainIsRefused` and `SharedGroupIsRefused` are examples.
- A migration may return normally although a script failed: a component whose
  recorded version is the system's where it stopped counts as migrated, forced or
  not. `Migration.FailureHidden` is an unforced run that does so, with a script
  leading beyond the system's version (as `src/migration-scripts/interfaces/34-to-35`
  does beside version 34 in
  `interface-definitions/include/version/interfaces-version.xml.i`). A normal return
  is the same as no failure, whatever the scripts contain, if and only if for each
  component with applicable scripts the last one leads to the system's version, no
  earlier one does, and the file is not at it yet (`Migration.SuccessTellsIff`);
  `Migration.FailureHiddenIff` says exactly when a failure can stay hidden.
- An empty list of default values creates no node
  (`MergeDefaults.EmptyListCreatesNothing`). So after `merge_defaults` a default
  exists if and only if it was configured or is no empty list, and on a tree that is
  closed under prefixes a path exists if and only if it did or some default at or
  below it is no empty list (`MergeDefaults.Merge`).
- The name of a queued closure is its target and, behind an underscore, its tag. If
  one target is another one followed by an underscore and more, a tag can make two
  names equal, and the later entry replaces the earlier one
  (`ConfigDep.ClashingTargets`); without such targets nothing is lost
  (`ConfigDep.KeepsLastOfTag`). The targets in `data/config-mode-dependencies` do not
  extend each other.
- A component map without entries prints a footer that cannot be read back
  (`ComponentVersion.WrittenRoundTrip`).

## Model

| member | source | states |
|---|---|---|
| RangeRegex.RegexForRange | python/vyos/range_regex.py:51-76 | for any min <= max of either sign, the text matches exactly the decimal texts of the integers between them: no leading zero, no "-0" |
| RangeRegex.SplitToPatterns | python/vyos/range_regex.py:79-87 | the patterns together match exactly the canonical decimals of the range, no string is matched by two of them, and there are at most 2*digits(max)-1 |
| RangeRegex.SplitToRanges | python/vyos/range_regex.py:90-112 | terminates with strictly increasing stops ending in max that cut the range into segments of equal digit count shaped prefix, one digit interval, zeros/nines; at most 2*digits(max)-1 of them |
| RangeRegex.AddNinesStops | python/vyos/range_regex.py:93-99 | the first loop ends and has collected every nines stop below max |
| RangeRegex.AddZerosStops | python/vyos/range_regex.py:101-107 | the second loop ends and has added every zeros stop above min, at most digits(max)-1 new ones |
| RangeRegex.SortedList | python/vyos/range_regex.py:109-110 | the stops in increasing order, none lost |
| RangeRegex.FillByNinesIsAbove | python/vyos/range_regex.py:115-116 | cutting the printed number, appending nines and reading it back gives one less than the least multiple of 10^count above it |
| RangeRegex.FillByZerosIsFloor | python/vyos/range_regex.py:119-120 | the result is the greatest multiple of 10^count not above the number |
| RangeRegex.NeighboursShape | python/vyos/range_regex.py:90-112 | between two neighbouring stops the segment has the prefix/interval/free-digits shape |
| RangeRegex.SegmentPattern | python/vyos/range_regex.py:123-141 | the pattern printed for a segment matches exactly the segment's canonical decimals |
| RangeRegex.RangeToPattern | python/vyos/range_regex.py:123-141 | the loop prints the pattern text the segment lemmas speak about |
| RangeRegex.MergeMeaning | python/vyos/range_regex.py:70-76 | merging by equal text into "-?" alternatives matches a positive pattern, or a minus and a negative pattern, and nothing else |
| JumpTargets.VerifyJumpTarget | src/conf_mode/firewall.py:167-198 | terminates on every jump graph; accepts if and only if all reachable chains exist and none breaks the output ipsec rule, no cycle is reachable, and no two rules of a reachable chain share chains below them (so every sound tree is accepted); each error names a real culprit |
| JumpTargets.WalkCleanIff | src/conf_mode/firewall.py:171-198 | the last-in first-out order meets a jump back to a traversed chain exactly when two rules of some reachable chain share chains below, a property of paths alone |
| JumpTargets.AcyclicIsRanked | src/conf_mode/firewall.py:167-198 | in an acyclic graph fewer chains are reachable after every jump, so the nested walk is finite |
| JumpTargets.AcceptedGraph | src/conf_mode/firewall.py:167-198 | what the traversal order proves once nothing is pending: every reachable chain is sound and none reaches itself |
| JumpTargets.RevisitIsLeaf | src/conf_mode/firewall.py:171-198 | a chain popped a second time without error has no jumps, which is why duplicates cannot keep the worklist alive |
| JumpTargets.TargetsAreNew | src/conf_mode/firewall.py:188-193 | on a tree of jumps no target was traversed or queued before |
| JumpTargets.WalkedBackward | src/conf_mode/firewall.py:188-192 | an error for a traversed child means the recursive walk itself jumps back |
| JumpTargets.SharedChainIsRefused | src/conf_mode/firewall.py:188-192 | a concrete graph that is sound and acyclic, but whose verdict is a loop because a chain is shared |
| NestedGroups.VerifyNestedGroup | src/conf_mode/firewall.py:463-477 | the in-place recursive checker leaves exactly the list and verdict of its specification, and terminates |
| NestedGroups.VerifyGroups | src/conf_mode/firewall.py:533-538 | accepts exactly when every group is accepted with a list of its own; an error names a culprit |
| NestedGroups.ErrorNamesCulprit | src/conf_mode/firewall.py:463-477 | "does not exist" names a missing group that is included below; "circular" names a group that includes the start, or a nesting group included at another place, too |
| NestedGroups.AcceptedIffTree | src/conf_mode/firewall.py:463-477 | a group is accepted if and only if everything it includes exists, nothing leads back to it and no nesting group is included twice |
| NestedGroups.SharedGroupIsRefused | src/conf_mode/firewall.py:473-474 | an acyclic diamond of groups is refused as circular |
| NestedGroups.IncludedIsAccepted | src/conf_mode/firewall.py:463-477 | acceptance passes to included groups with a smaller weight, which bounds the expander's recursion |
| NestedGroups.NftNestedGroup | python/vyos/template.py:696-713 | on accepted groups it terminates, extends the given list in place and returns it followed by exactly the missing members of all include-reachable groups, each once; what is below earlier includes comes first |
| NestedGroups.AddIncludes | python/vyos/template.py:700-709 | appends in order the not yet listed members at and below the group |
| NestedGroups.ListingMeaning | python/vyos/template.py:700-712 | the expander meets exactly the members of groups reachable through includes |
| NestedGroups.AppendNewMeaning | python/vyos/template.py:702-705 | what was listed stays in front, new items are distinct, and nothing is lost |
| NestedGroups.OwnMembersFirst | python/vyos/template.py:700-709 | a group's own members come before those of the groups it includes, which follow in include order |
| ConfigDep.DependencyQueue.RemoveRedundant | python/vyos/configdep.py:61-64 | deleting first equal entries under the reverse iteration leaves exactly the last occurrence of each name |
| ConfigDep.LastOccurrencesKeepsLast | python/vyos/configdep.py:61-73 | an entry is kept if and only if no later entry bears its name |
| ConfigDep.SameName | python/vyos/configdep.py:143-144 | names tell target and tag apart unless one target is the other followed by an underscore |
| ConfigDep.ClashingTargets | python/vyos/configdep.py:143-144 | where one target so extends another, a tag makes two names equal and the earlier entry is lost |
| ConfigDep.KeepsLastOfTag | python/vyos/configdep.py:61-73 | where targets do not extend each other, an entry is kept if and only if no later one has its target and tag |
| ConfigDep.AppendedDrops | python/vyos/configdep.py:66-73 | appending then drops exactly the entry with the target and tag of the new one |
| ConfigDep.LastOccurrencesInOrder | python/vyos/configdep.py:61-73 | the kept entries stand in their original order |
| ConfigDep.LastOccurrencesDistinct | python/vyos/configdep.py:61-73 | no name is kept twice |
| ConfigDep.DependencyQueue.AppendUniq | python/vyos/configdep.py:66-73 | the list becomes the reduction of itself with the entry appended |
| ConfigDep.ReducedAppend | python/vyos/configdep.py:66-73 | successive appends amount to one reduction of everything appended |
| ConfigDep.DependencyQueue.SetDependents | python/vyos/configdep.py:148-162 | queues the targets of the script's case, in order, with the tag, all of lower rank |
| ConfigDep.GraphFromDependencyDict | python/vyos/configdep.py:184-194 | the graph maps each script to its dependents over all cases |
| ConfigDep.AcyclicRanks | python/vyos/configdep.py:196-207 | a topological order gives every dependent a lower rank |
| BagOrder.BagsEnd | python/vyos/configdep.py:164-175 | taking one entry and queueing any number of lower rank can only be repeated finitely often |
| ConfigDep.DependencyQueue.RunScript | python/vyos/configdep.py:98-116 | any script run, with nested draining or an error, leaves a bag of ranks further down the order |
| ConfigDep.DependencyQueue.ServeFirst | python/vyos/configdep.py:118-132 | the first entry is deferred or run according to the commit's script lists |
| ConfigDep.DependencyQueue.CallDependentsFrom | python/vyos/configdep.py:164-175 | the loop ends from every state inside a commit and serves the head first |
| ConfigDep.DependencyQueue.CallDependents | python/vyos/configdep.py:164-175 | on an acyclic dictionary it ends; without an error the queue is empty and everything queued was run or deferred after it was last queued, with its own target and tag wherever queued targets do not extend each other; deferred exactly if the script of target and tag is in the commit and not yet called |
| PoolOrder.GetPoolsInOrder | python/vyos/accel_ppp_util.py:71-106 | terminates; returns a permutation in which each pool follows its next pool and its dependents form one block behind it; "not defined" exactly when a next pool is no key; "circular" exactly when otherwise a chain has a cycle; pools with the same next pool stand in reverse order of placing; an empty next pool counts as none |
| PoolOrder.OrderIsUnique | python/vyos/accel_ppp_util.py:71-106 | preorder and sibling order together determine the result: there is no other such list |
| PoolOrder.SiblingLater | python/vyos/accel_ppp_util.py:83-92 | a pool placed now goes before its waiting siblings: those listed in front of a next pool that itself had to wait come a round later |
| PoolOrder.SortOut | python/vyos/accel_ppp_util.py:71-78 | exactly the pools without a next pool are placed, in reverse data order; the others wait in data order |
| PoolOrder.DocumentedOrder | python/vyos/accel_ppp_util.py:44-69 | the list shown in the documentation is the one such order of its data |
| PoolOrder.InsertBehind | python/vyos/accel_ppp_util.py:87-92 | inserting right behind the next pool keeps the preorder |
| PoolOrder.InsertRoot | python/vyos/accel_ppp_util.py:74-76 | inserting a pool without next pool in front keeps the preorder |
| PoolOrder.StuckRound | python/vyos/accel_ppp_util.py:100-101 | a round that places nothing proves a cycle |
| PoolOrder.Undefined | python/vyos/accel_ppp_util.py:93-98 | a next pool neither placed nor waiting is not in the data |
| PoolOrder.PlacedIsAcyclic | python/vyos/accel_ppp_util.py:71-106 | complete placement rules out cycles and undefined pools and is a permutation |
| ComponentVersion.ParseMeaning | python/vyos/component_version.py:161-188 | any text: without a warning line the whole text is the body, with no components, the default release and no footer; else the body is what precedes the first one and either the three lines are read or one of the three errors is raised, each in its case |
| ComponentVersion.ComponentLineMeaning | python/vyos/component_version.py:178-181 | a component line matches exactly if it is the label, white space and a quoted component string |
| ComponentVersion.ReleaseLineMeaning | python/vyos/component_version.py:183-186 | a release line matches exactly if it is the label, white space and the release up to the next white space |
| ComponentVersion.SplitAt | python/vyos/component_version.py:173 | a line ends at each line break, a carriage return with a newline behind it counting as one |
| ComponentVersion.WrittenRoundTrip | python/vyos/component_version.py:129-188 | parsing a written record gives back components, release and the body plus one newline; without components it is refused |
| ComponentVersion.ComponentRoundTrip | python/vyos/component_version.py:143-149 | reading a printed component string gives the same map |
| ComponentVersion.ComponentToString | python/vyos/component_version.py:143-145 | prints the one sorted listing of the map |
| ComponentVersion.SortedListingUnique | python/vyos/component_version.py:144 | a map has only one sorted listing |
| ComponentVersion.BeforeMeaning | python/vyos/component_version.py:144 | the order of names is the lexicographic one of their characters |
| ComponentVersion.ItemsToMapMeaning | python/vyos/component_version.py:147-149 | of several items with one key the last one counts |
| ComponentVersion.FindItemsMeaning | python/vyos/component_version.py:147-149 | on any text the scanner takes an item that starts at the front with all its digits, and else goes on behind the first character |
| ComponentVersion.FooterFound | python/vyos/component_version.py:160-169 | the first warning line in a written text is the one behind the body |
| ComponentVersion.VersionInfo.UpdateComponent | python/vyos/component_version.py:117-124 | sets one component, creating the map if needed, and rewrites the footer |
| ComponentVersion.VersionInfo.UpdateRelease | python/vyos/component_version.py:113-115 | sets the release and rewrites the footer, nothing else |
| ComponentVersion.VersionInfo.UpdateSyntax | python/vyos/component_version.py:109-111 | sets the newer footer form, nothing else |
| ComponentVersion.VersionInfo.WriteString | python/vyos/component_version.py:129-133 | body, newline, footer lines, newline |
| ComponentVersion.VersionInfoPruneComponent | python/vyos/component_version.py:205-209 | keeps exactly the components the other record knows, if both have any |
| Migration.ComposeConfig.ApplyFunc | python/vyos/compose_config.py:46-60 | success leaves the changed tree; failure restores the checkpoint, or without one leaves the half-changed tree |
| Migration.ComposeConfig.ApplyFile | python/vyos/compose_config.py:62-77 | a file that cannot be loaded fails without touching the tree |
| Migration.ApplicableMeaning | python/vyos/migrate.py:178-184 | the scripts that run for a component: each of its scripts, as often as it is there, that does not start below the file's own version (all of them if forced or if the file has no versions), ordered by first and then second number |
| Migration.SortedScripts | python/vyos/migrate.py:134-144 | the scripts of a component ordered by first and then second number, none lost |
| Migration.RunScriptsMeaning | python/vyos/migrate.py:190-207 | the longest prefix of scripts that succeed is composed and the next script fails on that; with checkpoints it leaves no trace, without them what it did remains |
| Migration.FinalVersions | python/vyos/migrate.py:176-207 | each component ends at its last successful script's version, the system's if none applies, else where the pruned file left it |
| Migration.ComponentOrder | python/vyos/migrate.py:161-167 | components are sorted, except that bgp comes right behind quagga |
| Migration.ConfigMigrate.RunComponent | python/vyos/migrate.py:186-207 | one component's scripts run in order up to the first failure |
| Migration.ConfigMigrate.RunMigrationScripts | python/vyos/migrate.py:152-213 | the new record and tree are those of the specification; returns normally exactly when the recorded versions equal the system's |
| Migration.MigrationSucceedsIff | python/vyos/migrate.py:176-211 | success if and only if every component ends at the system's version, spelled out per component |
| Migration.SuccessTellsIff | python/vyos/migrate.py:176-211 | a normal return is the same as no failed script, for all contents of the script files, if and only if the file names and the file's own versions meet a condition that can be checked before the run |
| Migration.ToldByVersions | python/vyos/migrate.py:176-211 | under that condition the run succeeds exactly when all scripts of all components do |
| Migration.Misleading | python/vyos/migrate.py:176-211 | wherever a clause of the condition is broken there are script contents whose run misleads |
| Migration.FailureHiddenIff | python/vyos/migrate.py:176-211 | some contents of the script files let a run return normally after a failure exactly if all components can stop at the system's version and one can before its last script |
| Migration.FailureHidden | python/vyos/migrate.py:181-211 | an unforced run that needs a migration, in which a script fails and which returns normally |
| Migration.MigratedBody | python/vyos/migrate.py:194-209 | with checkpoints the migrated body composes, in order, exactly the successful scripts |
| Migration.MigratedTree | python/vyos/migrate.py:194-209 | in either mode, tree and body are what all scripts tried left behind, in order, the failing ones included |
| Migration.ConfigMigrate.Run | python/vyos/migrate.py:235-260 | memory and file after a run are those of the specification, branch by branch; a run that raises leaves body, versions and release on disk as they were; one that returns leaves the system's versions and release there; a migration brings the footer form up to date, on disk too |
| Migration.FailedRunKeepsFile | python/vyos/migrate.py:235-260 | corollary for `Run`: a run that raises leaves body, versions and release on disk as they were |
| Migration.FinishedRunIsCurrent | python/vyos/migrate.py:235-260 | corollary for `Run`: a run that returns leaves the system's versions and release, and running again is idle |
| Migration.WrittenFileIsCurrent | python/vyos/migrate.py:235-260 | the written file, read back, carries the system's versions and release |
| Netflow.IptablesGetRules | python/vyos/ipt_netflow.py:33-77 | lists exactly the NETFLOW rules with their numbers in the whole chain |
| Netflow.ListingMeaning | python/vyos/ipt_netflow.py:54-77 | an entry is listed if and only if a NETFLOW rule with its interfaces has its number in the whole chain |
| Netflow.IptablesConfig | python/vyos/ipt_netflow.py:80-135 | the commands turn the live chain into: the old rules, in order, without the NETFLOW rules of interfaces that are not configured; then one NETFLOW rule for each interface configured more often than it is watched, in configured order, leaving the other direction open |
| Netflow.ReconciledMeaning | python/vyos/ipt_netflow.py:99-135 | no rule for an unconfigured interface remains, configured ones have max(active, configured) rules, all others are unchanged and in order |
| Netflow.ExcessSorted | python/vyos/ipt_netflow.py:103-119 | deleting by number from the highest down removes exactly the excess rules |
| Netflow.SecondRunIsIdle | python/vyos/ipt_netflow.py:80-135 | on a reconciled chain a further run issues no command |
| Backslash.RoundTrip | python/vyos/configtree.py:33-53 | unescaping undoes escaping on every string |
| Backslash.EscapeActs | python/vyos/configtree.py:33-47 | escaping changes a text exactly when some part of it is a quote of either kind, a body with a backslash and without that quote, the quote again and a newline |
| Backslash.EscapeInjective | python/vyos/configtree.py:33-53 | different texts stay different when escaped |
| Backslash.ClosesThickened | python/vyos/configtree.py:40 | doubling backslashes neither makes nor breaks a match |
| Backslash.ReplaceMatch | python/vyos/configtree.py:36-41 | such a part at the head is doubled or halved as a whole and the scan goes on behind it |
| Backslash.ReplaceKeeps | python/vyos/configtree.py:36-41 | where no such part starts, the character is kept and the scan goes on behind it |
| Backslash.RunRewritten | python/vyos/configtree.py:44-53 | a run of n backslashes becomes one of 2n, or one of half of n rounded up |
| LoadBalance.WlbWeightInterfaces | python/vyos/wanloadbalance.py:136-159 | exactly the interfaces whose health state is up take part, by ascending weight with equal weights in the order of the rule; with positive weights their ranges partition the draws, each owning its weight; failover takes the first heaviest that is up; the result is empty if and only if none is up |
| LoadBalance.NatMap | python/vyos/nat.py:127-140 | positive weights partition the draws below their sum; weights summing to 100 cover every draw modulo 100 |
| LoadBalance.LaidOutPartitions | python/vyos/wanloadbalance.py:152-157 | ranges laid end to end select exactly one entry for each draw |
| LoadBalance.SortIsStable | python/vyos/wanloadbalance.py:152 | the sort is ascending, loses nothing and keeps the order of equal weights |
| DictMerge.MergeDicts | python/vyos/configdict.py:86-99 | the loop builds the merged dictionary of its specification |
| DictMerge.MergedAt | python/vyos/configdict.py:86-99 | at every path the destination's scalar wins, else the source's value appears, and nothing else exists |
| DictMerge.MergedIdempotent | python/vyos/configdict.py:86-99 | merging the same source once more changes nothing |
| DictMerge.MergedAssociative | python/vyos/configdict.py:86-99 | overlays can be grouped either way |
| MergeDefaults.Walk | python/vyos/config.py:112-126 | the in-place walk applies the leaves of the defaults one by one |
| MergeDefaults.AllLeaves | python/vyos/config.py:112-126 | the leaves the walk meets are exactly the defaults found by following the keys of the nested dictionaries: texts, lists and empty dictionaries, at any depth |
| MergeDefaults.Merge | python/vyos/config.py:97-128 | on the tree in place, for every default found by following keys: configured nodes keep their values; a default exists afterwards if and only if it was configured or is no empty list, with its own values unless configured; any other new node lies on the way to such a default and has no value; a prefix-closed tree stays so, and a path exists if and only if it did or such a default lies at or below it |
| MergeDefaults.MergeMeaning | python/vyos/config.py:97-128 | the part of this about configured nodes, defaults and new nodes, for any tree |
| MergeDefaults.MergeIdempotent | python/vyos/config.py:97-128 | a second overlay of the same defaults changes nothing |
| MergeDefaults.ExistsIff | python/vyos/config.py:97-128 | the part about all paths, those of whole dictionaries of defaults included |
| MergeDefaults.NothingElse | python/vyos/config.py:97-128 | only defaults and the nodes above them are added |
| MergeDefaults.EmptyListCreatesNothing | python/vyos/config.py:119-122 | an empty list of values leaves an empty tree empty |
| CertChain.FindParent | python/vyos/pki.py:440-444 | the first certificate that has signed the given one, if any has |
| CertChain.FindChain | python/vyos/pki.py:446-462 | terminates on any relation; each link takes the first signer of the set not used yet, certificates taken do not repeat, and it stops only with the set used up, no signer left, or the first signer left being the certificate itself |

## Left out

- The regular-expression engine: only the syntax the range compiler writes has a meaning here, matched in full and over ASCII digits; `range_to_regex` and `bounded_regex_for_range`, thin wrappers over text, are not modelled.
- `verify_jump_target`'s warning about deep nesting, which is printed and changes nothing.
- Module loading, stack-based caller names, tag environment variables and dry runs in `configdep.py`; target names are taken to be canonical, and the sorter's internals are replaced by the existence of a topological order.
- The older footer form in `component_version.py`: a text with only that form is read here as one without a footer.
- The configuration tree library: a tree is its rendered text in `Migration` and a map from paths to values in `MergeDefaults`, so reordering while parsing is not captured.
- Logging, the JSON record, checkpoint files on disk and write errors in `migrate.py`; the component map shared between a record and its copy is a value here, which no operation distinguishes because pruning replaces it first.
- Real iptables calls in `ipt_netflow.py`: a chain is a list of rules with delete by number and append; errors in the listing's format are left out.
- DictMerge.MergeDicts: does not model the type errors of a source that nests a non-empty dictionary where the destination holds a scalar or list.
- The mapping text around the ranges in `wanloadbalance.py` and `nat.py`, and weights that are not positive, for which the source makes no promise.
- Cryptography in `pki.py`: who signed whom is a given relation, and certificates are compared by value.
