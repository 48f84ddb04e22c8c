# KernelSU: a verified model of its hard parts

KernelSU edits a running SELinux policy, answers access queries against a saved one, queues events for user
space, parses policy batches and APK files, and keeps a list of app profiles. This project models seven of
these parts in Dafny and proves what they are for.

| part | modules |
|---|---|
| the SELinux rule editor, type tables and decision engine | AccessVectors, RuleTables, Constraints, Policies, DecisionEngine, DecisionMeaning, RuleEditor, TypeTables, RuleMeaning, PolicyTheorems, PolicyDbs |
| the policy batch: wire format and transaction | Bytes, BatchCodec, PolicyBatch, BatchMeaning |
| the event queue | EventQueues, EventReads, EventReaders |
| the APK signing block parser | ApkSignatures, ApkMeaning, ApkParser, ApkBuilder |
| the allowlist: the concurrent table, and the profiles and their file | AllowTables, AllowSafety, AllowLookup, AllowMeaning, AllowProfiles, ProfileMeaning, AllowStack, AllowListStores |
| the directory walk of the throne tracker | DirectoryWalk, WalkMeaning, DirectoryTree |
| the all-CPU rendezvous of the text patcher | Rendezvous |

How the parts are modelled:

- Code that changes state in place is a method or a class (`RuleTable`, `PolicyDb`, `AvDecision`, `Cursor`,
  `SelinuxState`, `EventQueue`, `Store`); each method is proved against a function on values, and the theorems
  are about those functions. Two parts are protocols between threads or CPUs and are step systems on values:
  `AllowTables` and `Rendezvous`. `EventQueues` is a step system too, and the class in `EventReaders` takes its
  steps in place while a parameter says what other threads do in between.
- The rule table is real linked memory: bucket heads and nodes with `next` fields, addressed by numbers. The
  ghost chains and the ghost map are tied to it by the table's validity.
- A 32-bit access vector is a set of bits 0 to 31; rule keys hold 16-bit type and class values, cut as in C.
- `BUG()` and `BUG_ON` in the constraint evaluator end it with the outcome `Bug`; a kernel that goes on returns 0
  there, and the caller treats it as a violated constraint.
- MLS levels are compared by dominance of sensitivity and inclusion of categories, as the kernel's own headers
  define it; those headers are not part of this repository. `CEXPR_MAXDEPTH` is 5 there; the evaluator and its
  theorems take any positive depth.
- `te_avtab` follows the contract of the kernel's avtab: at most one node per access-vector key, in the bucket
  of its hash, at any place of its chain. The conditional table is a fixed contribution per key. The hash
  order of types and classes, and the place of a new type in it, are arbitrary (`Place`).
- `SidsOk`, `TypesOk` say what a loaded policy guarantees: types have attribute sets, bounds are types, and no
  type bounds itself. `Indexed` and `Complete` are the invariants of the type tables.
- Files are byte strings that do not change while they are read, and reads inside them succeed. SHA-256 is a
  function that may fail. Structures are laid out as on a 64-bit little-endian kernel.
- Allocation succeeds except where a push without memory is the point; 64-bit sequence numbers do not wrap.
- A file system (`FileSystem`) lists non-empty names without a slash, none twice in one directory.

- The modules named `...Meaning` state what the functions that methods are proved against mean, in the fields, bytes
  and characters of the inputs alone, without those functions' own helpers.

Three findings, each with an input that shows it and the exact condition under which it does not occur:

- A v2 profile whose domain is `u:r:su:s0` does not come back unchanged from a set and a get, because the domain is
  renamed (`SuProfileComesBackChanged`). `SetThenGet`: this is the only exception.
- The last 8 bytes of a loaded v2 or v3 profile of an app without root are whatever lay on the loader's stack
  (`OldFileShowsTheStack`). `JunkIsStored` says when for one record, `LoadsAgree` and `StackMatters` for a whole file:
  the list depends on the stack if and only if some entry was last set by an accepted record without root. Everything
  else about the list is proved for any such bytes (`Junk`).
- Allow, then deny, of a permission restores the rule table unless the rule was stored with an empty vector; then the
  deny unlinks it (`EmptyRuleIsLost`). `AllowThenDenyRestores` has both directions.

## Model

| member | source | states |
|---|---|---|
| Constraints.EvalStep | kernel/non_gki/selinux_hide.c:1573-1722 | one turn of the evaluator on the array `s` and index `sp` is one step on the stack of values, with the same overflow and underflow exits |
| Constraints.ConstraintExprEval | kernel/non_gki/selinux_hide.c:1562-1728 | the loop over the fixed array computes the run of the list on an empty stack |
| Constraints.EvaluatesTree | kernel/non_gki/selinux_hide.c:1562-1728 | on the list of a tree the result is the tree's truth value if its stack need fits, else the stack-full exit (0); never an underflow or a leftover |
| Constraints.EvaluationIsExact | kernel/non_gki/selinux_hide.c:1562-1728 | a list evaluates to v if and only if it encodes a tree with known leaves that fits the stack and has truth value v |
| Constraints.EncodedTreeIsUnique | kernel/non_gki/selinux_hide.c:1573-1722 | the tree that an evaluated list encodes is unique |
| Constraints.PostfixIsInjective | kernel/non_gki/selinux_hide.c:1573-1595 | a list encodes at most one tree |
| DecisionMeaning.LevelLeaf | kernel/non_gki/selinux_hide.c:1618-1670 | for each pair of levels and each operator, the comparison of sensitivities and categories in this direction; an unknown operator is a BUG |
| DecisionMeaning.UserAndTypeLeaf | kernel/non_gki/selinux_hide.c:1589-1683 | users and types are equal or not; every other operator, attribute and element is a BUG |
| DecisionMeaning.RoleLeaf | kernel/non_gki/selinux_hide.c:1602-1617 | equality, and dominance in both directions by the roles' own maps |
| DecisionMeaning.NamesLeaf | kernel/non_gki/selinux_hide.c:1684-1717 | target before third context before source, user before role before type, and that value's bit in the list or not in it |
| DecisionMeaning.NamesWithoutField | kernel/non_gki/selinux_hide.c:1690-1706 | without a field, or with a third context that is not there, a names element is a BUG, and only then has it no field |
| DecisionMeaning.Connectives | kernel/non_gki/selinux_hide.c:1575-1588 | not, and, or of the values of the operands before them |
| DecisionMeaning.LowDominatesLow | kernel/non_gki/selinux_hide.c:1895-1902 | a decision evaluates with the source's context first: l1 dom l2 fails exactly when the target's level is not below the source's |
| DecisionMeaning.TypeListed | kernel/non_gki/selinux_hide.c:1895-1902 | a constraint on the source's or the target's type reads that context, and a third context always fails |
| DecisionMeaning.FiveDeep | kernel/non_gki/selinux_hide.c:1589-1591 | operands nested five deep or more fail every decision even if all are true, and shallower ones say what they say |
| RuleTables.RuleTable.FindRule | kernel/non_gki/sepolicy.c:113 | the search finds a node exactly for the keys of the abstract map, and that node holds the map's bits |
| RuleTables.RuleTable.Insert | kernel/non_gki/sepolicy.c:127-141 | insertion links one new node at some place of its chain and keeps every other node, in order |
| RuleTables.RuleTable.Remove | kernel/non_gki/sepolicy.c:156-230 | the search over all slots finds a linked node, and unlinks exactly that one |
| RuleTables.RuleTable.Store | kernel/non_gki/sepolicy.c:343-353 | overwriting the bits of a node changes its key in the map and nothing else |
| RuleTables.RuleTable.Copy | kernel/non_gki/sepolicy.c:1149-1226 | the private copy of the table reads the same |
| RuleTables.FoundIsMapped | kernel/non_gki/sepolicy.c:330-341 | a search result in a valid table agrees with the map in both directions |
| RuleTables.PasteRefines | kernel/non_gki/sepolicy.c:127-141 | a table refining a map still refines the map with the key added after an insertion |
| RuleTables.CutRefines | kernel/non_gki/sepolicy.c:172-196 | a table refining a map refines the map without the key after its node is unlinked |
| RuleTables.WithoutNodeValid | kernel/non_gki/sepolicy.c:172-196 | unlinking a node keeps the linked memory, the count and the refinement intact |
| RuleEditor.EditAllAt | kernel/non_gki/sepolicy.c:343-356 | an edit of a key set changes exactly those keys, and none of them keeps a default value |
| RuleEditor.EditAllAdds | kernel/non_gki/sepolicy.c:286-322 | edits of several key sets add up, so the hash iteration order does not matter |
| RuleEditor.LoopTurns | kernel/non_gki/sepolicy.c:286-322 | one turn of a wildcard loop adds exactly the keys of the type or class it calls back with |
| RuleEditor.TouchedTrans | kernel/non_gki/sepolicy.c:281-359 | over several edits, rules outside the named keys keep their order, and count and length move together |
| RuleEditor.AllowThenDenyRestores | kernel/non_gki/sepolicy.c:324-356 | allow then deny of a permission the rule did not have restores chains, node count, map and length if and only if the rule was not stored empty |
| RuleEditor.EmptyRuleIsLost | kernel/non_gki/sepolicy.c:324-356 | a concrete table with an empty stored rule, which allow and then deny unlink |
| RuleEditor.EnsuredThenEdited | kernel/non_gki/sepolicy.c:324-356 | insert if missing, overwrite, remove if redundant: together exactly the edit of one key, with one entry of length per node |
| PolicyDbs.PolicyDb.GetAvtabNode | kernel/non_gki/sepolicy.c:93-143 | returns the node of the key, made with its default value if it was missing, with 16 bytes of length |
| PolicyDbs.PolicyDb.RemoveAvtabNode | kernel/non_gki/sepolicy.c:156-230 | unlinks that node only and takes back 16 bytes of length |
| PolicyDbs.PolicyDb.EditRule | kernel/non_gki/sepolicy.c:324-356 | the innermost edit: exactly the new bits for one key, canonical, with exact count and length |
| PolicyDbs.PolicyDb.AddRuleRaw | kernel/non_gki/sepolicy.c:281-359 | with any wildcards, exactly the keys that the wildcards stand for are edited and all other rules keep their order |
| PolicyDbs.PolicyDb.Expand | kernel/non_gki/sepolicy.c:286-322 | the wildcard loop reaches every type, attribute or class it stands for, in table order |
| PolicyDbs.PolicyDb.AddRule | kernel/non_gki/sepolicy.c:232-279 | the lookups and the edit in place are the rule command on values |
| RuleMeaning.RuleCommandMeans | kernel/non_gki/sepolicy.c:232-359 | for any names, given or left out: success exactly when what is given is known; then each rule from a named source to a named target gets its new bits, and every other rule and the rest of the policy stay |
| RuleMeaning.NamedRuleMeans | kernel/non_gki/sepolicy.c:232-278 | with four names, exactly the rule from the first type to the second for the class gains or loses exactly the permission |
| RuleMeaning.AllSourcesRuleMeans | kernel/non_gki/sepolicy.c:286-303 | without a source, exactly the rules from each type that ALL stands for to the named one |
| RuleMeaning.AllTargetsRuleMeans | kernel/non_gki/sepolicy.c:299-317 | without a target, exactly the rules from the named type to each that ALL stands for |
| RuleMeaning.WholeRuleMeans | kernel/non_gki/sepolicy.c:343-353 | without a permission the rule gets all bits, or none |
| RuleMeaning.LengthMeans | kernel/non_gki/sepolicy.c:93-143 | the stored length is 16 bytes for each rule, before and after an edit |
| RuleMeaning.FindTypeIff | kernel/non_gki/sepolicy.c:239-253 | a type is found exactly as its table entry says |
| RuleMeaning.FindClassIff | kernel/non_gki/sepolicy.c:255-261 | a class is found if and only if a listed class has the name |
| PolicyDbs.PolicyDb.NewTypeDatum | kernel/non_gki/sepolicy.c:700-921 | a new type enters the table, all three grown arrays and every role; an old name is left alone |
| PolicyDbs.Grow | kernel/non_gki/sepolicy.c:823-883 | growing a flex array keeps every old element and puts the new one last |
| PolicyDbs.PolicyDb.AddAttributeRaw | kernel/non_gki/sepolicy.c:954-992 | sets the attribute bit and marks every names-constraint of every listed class that names the attribute |
| PolicyDbs.PolicyDb.AddAttribute | kernel/non_gki/sepolicy.c:994-1016 | only an ordinary type and an attribute can be joined |
| RuleMeaning.JoinMeans | kernel/non_gki/sepolicy.c:954-1016 | accepted exactly for an ordinary type and an attribute in this order; one attribute set gains one bit, and all else but the classes stays |
| RuleMeaning.JoinMarks | kernel/non_gki/sepolicy.c:978-991 | expression by expression: a names-constraint that lists the attribute gains exactly the type, and nothing else in any class changes |
| PolicyDbs.PolicyDb.SetState | kernel/non_gki/sepolicy.c:929-952 | the permissive bit of one named type, or of all types, is set or cleared |
| RuleMeaning.StateMeans | kernel/non_gki/sepolicy.c:929-952 | exactly the named type, or with ALL each type of the table, becomes permissive or enforcing |
| PolicyDbs.PolicyDb.Perform | kernel/non_gki/sepolicy.c:1021-1069 | every command in place is the command on values, and keeps the type tables indexed and the constraints complete |
| PolicyDbs.PolicyDb.AllowThenDeny | kernel/non_gki/sepolicy.c:1052-1060 | the two edits in place leave table, count and length as they were if and only if the rule was not stored empty |
| TypeTables.AddTypeKeepsIndex | kernel/non_gki/sepolicy.c:700-921 | after a new type, name, datum and self bit agree for every value |
| TypeTables.AddedIsFound | kernel/non_gki/sepolicy.c:700-921 | a new name is found with the next value, old names as before, and every role gets exactly the new type |
| TypeTables.AddTypeAttributeKeepsNames | kernel/non_gki/sepolicy.c:975-991 | a type that gets an attribute is in the name set of every constraint listing it |
| TypeTables.MarkClassesAt | kernel/non_gki/sepolicy.c:978-991 | the walk over the class table marks each listed class once in effect, and no other |
| PolicyTheorems.RunKeepsTypes | kernel/non_gki/sepolicy.c:700-1016 | under any sequence of commands the type tables stay a consistent index and the constraints stay complete |
| PolicyTheorems.RunSurvives | kernel/non_gki/sepolicy.c:823-921 | old values keep datum and name over any run, and no type loses an attribute |
| PolicyTheorems.AllowIsMonotone | kernel/non_gki/sepolicy.c:1052-1055 | after ksu_allow with any wildcards no source, target and class loses a permission, through constraints, roles and bounds |
| PolicyTheorems.DenyIsAntitone | kernel/non_gki/sepolicy.c:1057-1060 | ksu_deny never adds one |
| PolicyTheorems.AllowIsExact | kernel/non_gki/sepolicy.c:281-359 | after an allow the rule stage grants what it did, and exactly the attribute pairs the request reaches |
| PolicyTheorems.DenyIsExact | kernel/non_gki/sepolicy.c:281-359 | after a deny exactly the unreached pairs and the conditional rules still grant |
| PolicyTheorems.WildcardIsExact | kernel/non_gki/sepolicy.c:67-69 | ALL stands for every type, or for exactly the attributes, as strip_av says |
| PolicyTheorems.AllowAllPairs | kernel/non_gki/sepolicy.c:286-322 | an allow request for ALL adds the permission for exactly the pairs whose sets each hold an attribute |
| PolicyTheorems.DenyAllPairs | kernel/non_gki/sepolicy.c:286-322 | a deny request for ALL leaves only what a conditional rule grants |
| PolicyTheorems.AllowAllMeans | kernel/non_gki/sepolicy.c:1052-1055 | ksu_allow with ALL source and target succeeds and adds every covered permission for exactly those pairs, for named or ALL classes and permissions |
| PolicyTheorems.DenyAllMeans | kernel/non_gki/sepolicy.c:1057-1060 | ksu_deny with ALL source and target succeeds and leaves of a covered permission only conditional grants |
| PolicyTheorems.RunKeepsBounds | kernel/non_gki/sepolicy.c:1021-1069 | bounds stay types and acyclic under any commands, so decisions are defined after every run |
| PolicyTheorems.GivingRun | kernel/non_gki/sepolicy.c:1026-1069 | over any run of allow, audit, new-attribute and permissive commands no decision loses a permission |
| PolicyTheorems.GivingRunForUsers | kernel/non_gki/selinux_hide.c:2117-2151 | the same for what user space is told |
| PolicyTheorems.GrownDecides | kernel/non_gki/sepolicy.c:700-921 | growing the type tables changes no decision between old types |
| PolicyTheorems.JoiningIsExact | kernel/non_gki/sepolicy.c:954-973 | the rule stage after a join, for every source and target, in terms of the joined attribute sets |
| PolicyTheorems.JoiningGains | kernel/non_gki/sepolicy.c:954-973 | a join adds exactly the attribute's grants as source, those towards it as target, and its own pair when the type is both |
| PolicyTheorems.JoiningTakesNothing | kernel/non_gki/sepolicy.c:954-991 | if no names-constraint lists the attribute, no decision loses a permission by the join |
| PolicyTheorems.TypeStateIsExact | kernel/non_gki/sepolicy.c:929-952 | ksu_permissive and ksu_enforce flip the flag of exactly the named type and change no permission |
| Policies.RankDecreases | kernel/non_gki/selinux_hide.c:1764-1777 | with acyclic bounds each lowering shortens the chain, so the mutual recursion ends |
| Policies.BoundsContain | kernel/non_gki/selinux_hide.c:1730-1785 | the permissions of a type are contained in those of every ancestor of its whole bounds chain, towards the target's ancestor of the same step or its last one |
| Policies.AncestorIff | kernel/non_gki/selinux_hide.c:1730-1785 | a type has exactly as many ancestors as its rank, which bounds the recursion |
| Policies.DecideIsEveryLevel | kernel/non_gki/selinux_hide.c:1819-1925 | a permission is allowed if and only if it is granted at every level of the bounds chain |
| Policies.DecideIsMonotone | kernel/non_gki/selinux_hide.c:1819-1925 | more allow rules never take a permission away |
| DecisionMeaning.DecisionMeans | kernel/non_gki/selinux_hide.c:1819-1925 | the whole decision in the fields of the policy: rules between attributes in this order, constraints, role changes, and the bound's own decision |
| DecisionMeaning.AuditMeans | kernel/non_gki/selinux_hide.c:1868-1889 | a use is audited if some pair of attributes asks for it, a denial if no pair silences it |
| DecisionMeaning.UserMeans | kernel/non_gki/selinux_hide.c:2117-2151 | what user space is told, permission by permission, for known and unknown ids and class 0 |
| DecisionEngine.ScanChain | kernel/non_gki/selinux_hide.c:1873-1883 | the loop over a key's nodes reads exactly the matching rules of the chain |
| DecisionEngine.ScanRules | kernel/non_gki/selinux_hide.c:1869-1883 | the rules of one key triple contribute what the map says, for all three vectors |
| DecisionEngine.ScanAttributes | kernel/non_gki/selinux_hide.c:1868-1889 | the nested loops union over all attribute pairs, in any order |
| DecisionEngine.ApplyConstraints | kernel/non_gki/selinux_hide.c:1895-1902 | exactly the permissions of violated constraints are removed |
| DecisionEngine.ApplyRoleChange | kernel/non_gki/selinux_hide.c:1909-1917 | a role change that no role-allow rule permits costs exactly the process-transition permissions |
| DecisionEngine.TypeAttributeBoundsAv | kernel/non_gki/selinux_hide.c:1730-1785 | masks exactly what the lowered pair may not do |
| DecisionEngine.ContextStructComputeAv | kernel/non_gki/selinux_hide.c:1819-1925 | the in-place computation gives the declarative decision and the audit vectors |
| DecisionEngine.SecurityComputeAvUser | kernel/non_gki/selinux_hide.c:2117-2151 | unknown ids, class 0, allow_unknown and permissive domains as in the code, else the decision; with the audit vectors |
| DecisionEngine.UnionIsGranted | kernel/non_gki/selinux_hide.c:1868-1889 | the union over pairs allows a permission if and only if some pair of attributes is granted it |
| BatchCodec.EncodeThenParse | kernel/include/uapi/supercall.h:61-76 | parsing the encoding of any command list returns that list |
| BatchCodec.ParseThenEncode | kernel/non_gki/rules.c:363-444 | any accepted byte string re-encodes to itself |
| BatchCodec.AcceptedAreEncodings | kernel/non_gki/rules.c:689-714 | the accepted strings are exactly the encodings of command lists |
| BatchCodec.Cursor.ReadCmdHeader | kernel/non_gki/rules.c:368-378 | reads 8 bytes or fails without moving |
| BatchCodec.Cursor.ReadString | kernel/non_gki/rules.c:380-409 | succeeds exactly on a length-prefixed, NUL-terminated string without NUL inside; length 0 is ALL |
| BatchCodec.Cursor.ReadArgs | kernel/non_gki/rules.c:708-714 | the argument loop reads the expected number of arguments or fails |
| PolicyBatch.MeaningIsDefined | kernel/non_gki/rules.c:411-419 | a command reaches the editor if and only if its subcommand is known and ALL stands only where it may |
| PolicyBatch.NormalPermMeans | kernel/non_gki/rules.c:452-464 | subcommand 1 adds exactly the reached pairs, 2 removes exactly them, the audit ones change no grant |
| BatchMeaning.PermissionCommand | kernel/non_gki/rules.c:452-464 | from the bytes of four arguments to the value of each rule: subcommand 1 allows, 2 takes away, 3 audits uses, 4 silences denials |
| BatchMeaning.StateCommand | kernel/non_gki/rules.c:487-500 | subcommand 1 makes the named type permissive, 2 enforcing, all others nothing |
| BatchMeaning.TypeCommand | kernel/non_gki/rules.c:502-522 | the first argument is the new type's name, the second its attribute; value, name and attribute set of the new type, and all old names stay |
| BatchMeaning.AttributeCommand | kernel/non_gki/rules.c:524-534 | a new name becomes an attribute with the next value; an old one changes nothing |
| BatchMeaning.JoinCommand | kernel/non_gki/rules.c:502-522 | the first argument is the type, the second the attribute it joins |
| BatchMeaning.OutsideCommands | kernel/non_gki/rules.c:466-600 | the calls of the other commands: which arguments, which effect, and where ALL is refused or selects a variant |
| BatchMeaning.OutsideIsNoted | kernel/non_gki/rules.c:466-600 | such a call leaves the modelled policy alone and returns its own result |
| BatchMeaning.ArgumentCounts | kernel/non_gki/rules.c:421-444 | the number of arguments of each command number |
| BatchMeaning.ArgumentBytes | kernel/non_gki/rules.c:380-409 | length, characters and NUL of an argument on the wire |
| BatchMeaning.CommandBytes | kernel/non_gki/rules.c:353-356 | command number, subcommand number and arguments on the wire |
| BatchMeaning.BatchErrors | kernel/non_gki/rules.c:615-667 | the error of each way a whole batch fails, none of which changes the active policy |
| PolicyBatch.Database.ApplyOne | kernel/non_gki/rules.c:446-613 | dispatch by command and subcommand, with the arguments that must not be ALL |
| PolicyBatch.SelinuxState.RunBatch | kernel/non_gki/rules.c:685-723 | the loop on the copy is the in-order fold of the parsed commands, and counts the successes |
| PolicyBatch.SelinuxState.HandleSepolicy | kernel/non_gki/rules.c:615-777 | size and copy errors, and the transaction: the active policy changes only when the batch is well-formed to its last byte |
| PolicyBatch.BatchIsAtomic | kernel/non_gki/rules.c:699-714 | a malformed command after any well-formed ones leaves the active policy as it was |
| PolicyBatch.BatchIsFold | kernel/non_gki/rules.c:685-737 | a well-formed batch has the effect of its commands in order and returns how many succeeded |
| PolicyBatch.FoldCounts | kernel/non_gki/rules.c:716-722 | the count is the number of commands that succeed on the database their predecessors left |
| PolicyBatch.GivingBatch | kernel/non_gki/rules.c:446-613 | a batch without deny and type commands takes no permission from any decision |
| EventQueues.RunAccounts | kernel/infra/event_queue.c:83-297 | over every interleaving of producers, close and the reader's sections the queue keeps its accounts |
| EventQueues.NumbersAreConserved | kernel/infra/event_queue.c:12-20 | each issued number is delivered, pending, reported or waiting to be reported; the counters and the bound are exact |
| EventQueues.ReportsAreExact | kernel/infra/event_queue.c:214-257 | a report's range begins and ends with a lost number and holds exactly as many lost numbers as it counts, after merges too |
| EventQueues.ReportsAreDisjoint | kernel/infra/event_queue.c:241-254 | ranges of reports are disjoint and strictly increase |
| EventQueues.FirstInFirstOut | kernel/infra/event_queue.c:260-297 | delivered then pending nodes are the accepted nodes in push order, and a node being copied is the first pending one |
| EventQueues.FinishedForGood | kernel/infra/event_queue.c:299-357 | closed and empty, a queue stays so and hands out nothing more |
| EventReaders.PushResultTells | kernel/infra/event_queue.c:83-147 | 0 means accepted, no space and no memory mean counted as lost, any other error leaves no trace |
| EventReaders.PushErrors | kernel/infra/event_queue.c:83-147 | the exact condition of each error number of a push |
| EventReaders.DropAndCloseTell | kernel/infra/event_queue.c:149-165 | a drop issues a number and loses it; a closed queue ignores it; closing takes nothing back |
| EventReads.ReadEnds | kernel/infra/event_queue.c:299-357 | how a read ends, as an equivalence for each error number, 0 and success, in terms of the queue when it is looked at, the first record's size and its copy |
| EventReads.ReadProgresses | kernel/infra/event_queue.c:299-357 | with data at the start, no interruption, room and no fault, a read hands out something, whatever others do |
| EventReads.ReadStops | kernel/infra/event_queue.c:319-350 | a read stops before the buffer is full only when nothing is pending, the next record is larger than the room left, or a copy faulted |
| EventReads.QuietRead | kernel/infra/event_queue.c:299-357 | an undisturbed read hands out the report and then exactly the nodes that fit, in order, and changes nothing else |
| EventReads.WaitEnds | kernel/infra/event_queue.c:167-189 | when the wait says -EAGAIN, when -ERESTARTSYS, and when 0 |
| EventReads.FirstTurn | kernel/infra/event_queue.c:191-297 | the result of one turn, by the first record's size, the room and the copy |
| EventReaders.WireFields | kernel/infra/event_queue.h:7-13 | each header field at its offset, least significant byte first |
| EventReaders.ReportOnWire | kernel/infra/event_queue.c:206-217 | the 48 bytes of a drop report: type 0xffff, flag 1, and count, first and last number |
| EventReaders.StreamReadsBack | kernel/infra/event_queue.h:7-19 | the bytes of a read tell its records apart |
| EventReaders.EventQueue.PushEvent | kernel/infra/event_queue.c:83-147 | the push in place is the push step, with its return values |
| EventReaders.EventQueue.WaitReady | kernel/infra/event_queue.c:167-189 | queue and result are those of the wait on values; with one reader a second look always succeeds |
| EventReaders.EventQueue.ReadDrop | kernel/infra/event_queue.c:191-258 | queue and result are those of the turn on values: one whole report, or nothing and an error, whatever others do during the copy |
| EventReaders.EventQueue.ReadNode | kernel/infra/event_queue.c:260-297 | queue and result are those of the turn on values: one whole node, or nothing and an error; 0 only when nothing is pending |
| EventReaders.EventQueue.ReadTurns | kernel/infra/event_queue.c:319-350 | the loop of a read is the read loop on values, whole records only |
| EventReaders.EventQueue.ReadEvents | kernel/infra/event_queue.c:299-357 | queue and result are those of the read on values; whole records only, counted exactly, within the buffer; 0 for a non-zero request means closed and empty for good |
| ApkSignatures.BlockIsParsed | kernel/manager/apk_sign.c:204-221 | the block found from its tail is the declared layout, and its pairs are the only ones |
| ApkSignatures.FirstCertIsHeld | kernel/manager/apk_sign.c:91-104 | the walk through the nested containers finds exactly the declared first certificate |
| ApkSignatures.ScanIsAcceptance | kernel/manager/apk_sign.c:239-274 | the counters accept exactly the lists with one v2 pair that matches and no v3 or v3.1 pair |
| ApkSignatures.PairsBack | kernel/manager/apk_sign.c:226-254 | pairs that tile a block are parsed back |
| ApkSignatures.PairsExact | kernel/manager/apk_sign.c:226-254 | parsed pairs tile the block with no gap |
| ApkSignatures.TwelveBytesEach | kernel/manager/apk_sign.c:223-254 | every pair takes at least 12 bytes |
| ApkSignatures.HexIsInjective | kernel/manager/apk_sign.c:125-130 | equal strings come from equal digests |
| ApkMeaning.CertMatchesMeans | kernel/manager/apk_sign.c:106-130 | a certificate matches if and only if it has the expected size, at most 1024 bytes, and each byte of its digest is spelled by its two lower-case digits, the high one first |
| ApkMeaning.HexOfSpells | kernel/manager/apk_sign.c:122-130 | the string of a digest is the only one that spells it |
| ApkMeaning.EocdMeans | kernel/manager/apk_sign.c:161-181 | the bytes P, K, 5, 6 and the comment's length at their places |
| ApkMeaning.DirectoryMeans | kernel/manager/apk_sign.c:183-202 | no locator P, K, 6, 7, and size and offset of the directory that add up to the record's place |
| ApkMeaning.LayoutMeans | kernel/manager/apk_sign.c:204-221 | size, pairs, size again and magic at their places in a block |
| ApkMeaning.BlockMeans | kernel/manager/apk_sign.c:204-221 | exactly which bytes before the directory are a signing block of given pairs: both sizes, the pairs between them, the magic, and at most INT_MAX bytes |
| ApkMeaning.ContainerMeans | kernel/manager/apk_sign.c:72-83 | exactly when a length-prefixed container can be read, and what is in it and behind it |
| ApkMeaning.PairMeans | kernel/manager/apk_sign.c:226-240 | size, id and value of a pair; size and contents of a container |
| ApkMeaning.PairsMean | kernel/manager/apk_sign.c:239-274 | one pair with id 0x7109871a and a matching value, no other with it, and none with 0xf05368c0 or 0x1b93ad61 |
| ApkBuilder.BuiltIsJudgedByPairs | kernel/manager/apk_sign.c:133-277 | a file put together by the standard layout, without a comment and a ZIP64 locator, is accepted if and only if its pairs are |
| ApkParser.ReadExact | kernel/manager/apk_sign.c:64-70 | reads exactly when all of it lies between 0 and the end |
| ApkParser.ReadLengthPrefixedEnd | kernel/manager/apk_sign.c:72-83 | the value's end stays in its container |
| ApkParser.CheckBlock | kernel/manager/apk_sign.c:85-131 | the answer is a function of the bytes of the pair alone |
| ApkParser.FindEocd | kernel/manager/apk_sign.c:161-181 | finds the record with the smallest consistent comment, or there is none |
| ApkParser.FindDirectory | kernel/manager/apk_sign.c:183-202 | no ZIP64 locator, and a central directory that ends at the record |
| ApkParser.ReadPair | kernel/manager/apk_sign.c:226-254 | one turn stays in the block and consumes at least 12 bytes |
| ApkParser.ScanPairs | kernel/manager/apk_sign.c:226-274 | the loop accepts exactly the pair lists that the counters accept |
| ApkParser.CheckV2Signature | kernel/manager/apk_sign.c:133-277 | a file is accepted if and only if it has the declared form |
| AllowSafety.StepKeeps | kernel/policy/allowlist.c:60-225 | every step of writer, readers and holders keeps the invariant |
| AllowSafety.OneEntryPerUid | kernel/policy/allowlist.c:167-212 | at most one linked entry per uid, and the counter is the number of linked nodes and fits 16 bits |
| AllowSafety.CountsAreExact | kernel/policy/allowlist.c:128-137 | each refcount is one for the table while it owes it plus the holders; 0 exactly when retired |
| AllowSafety.NothingFreedInUse | kernel/policy/allowlist.c:304-347 | no held profile is retired or freed, and no running section stands on memory that can be freed |
| AllowSafety.NextOfLinked | kernel/policy/allowlist.c:66-73 | behind a linked node comes a linked node or the end |
| AllowSafety.FreeKeeps | kernel/policy/allowlist.c:128-132 | giving memory back after a grace period leaves no pointer to it that anybody follows |
| AllowMeaning.SetMeans | kernel/policy/allowlist.c:165-218 | a set makes the new node the uid's entry with one reference and unlinks the old one; all other nodes stay, and a full list without the uid is left alone |
| AllowMeaning.PruneStepMeans | kernel/policy/allowlist.c:548-559 | a prune unlinks exactly the uid's entry and counts one less |
| AllowMeaning.PutsMean | kernel/policy/allowlist.c:128-137 | a put takes one reference; the last one retires the node, which waits for exactly the running sections |
| AllowMeaning.TryGetMeans | kernel/policy/allowlist.c:75-83 | a reference is taken exactly when there still is one, else the search starts over |
| AllowMeaning.NothingLeaks | kernel/policy/allowlist.c:128-137 | in every reachable state, memory that is no entry, owed no put and held by nobody was given up, and goes once no section runs |
| AllowLookup.LookupNeverMisses | kernel/policy/allowlist.c:60-83 | a search whose entry stays in the table since it began never reaches the end of its list before a node of that uid, whatever is replaced, unlinked and freed meanwhile |
| AllowLookup.LeadsAround | kernel/policy/allowlist.c:181 | a path to a uid survives the unlinking of another node and the replacement of any node on it |
| AllowLookup.PathAvoidsFree | kernel/policy/allowlist.c:128-132 | freed memory is on no path that a running section still walks |
| AllowProfiles.MigrateAt | kernel/policy/allowlist.c:446-469 | migration changes exactly the version, an old su domain, and the flags of a root profile |
| AllowProfiles.MigrateCurrent | kernel/policy/allowlist.c:446-469 | migrating a current profile changes nothing |
| ProfileMeaning.SetAnswers | kernel/policy/allowlist.c:92-211 | a set is accepted if and only if the bytes are acceptable and there is a place; -EINVAL and -E2BIG exactly for the two failures, which change nothing |
| ProfileMeaning.SetStores | kernel/policy/allowlist.c:139-225 | each byte that is stored under the uid, the other entries unchanged, and the default of the reserved uid |
| ProfileMeaning.DoSetAnswers | kernel/supercall/dispatch.c:349-384 | the same answers for the call from user space, on the caller's bytes |
| ProfileMeaning.DoSetMeans | kernel/supercall/dispatch.c:282-384 | versions other than 2, 3 and 4 are refused, and old ones are set without the last eight bytes |
| ProfileMeaning.GetAnswers | kernel/supercall/dispatch.c:293-347 | when a get fails and with which error; then the caller's structure is untouched |
| ProfileMeaning.GetGives | kernel/supercall/dispatch.c:318-347 | each byte that a get writes, and those that it leaves |
| ProfileMeaning.PruneMeans | kernel/policy/allowlist.c:548-561 | a prune keeps exactly the valid uids, 9999 and 1053 |
| ProfileMeaning.SavedMeans | kernel/policy/allowlist.c:376-416 | header bytes and size of a saved file |
| ProfileMeaning.RecordAt | kernel/policy/allowlist.c:404-410 | record k of a saved file is the k-th entry of the walk |
| ProfileMeaning.LoadMeans | kernel/policy/allowlist.c:485-503 | nothing is read behind another header, and versions 2 and 3 are written anew |
| ProfileMeaning.LoadTurns | kernel/policy/allowlist.c:505-524 | a record has 776 or 784 bytes by the file's version, and is migrated from it and set |
| AllowProfiles.RunIsOk | kernel/policy/allowlist.c:139-225 | every reachable list holds valid entries under their uids, and the default that the reserved entry gives |
| AllowProfiles.SaveThenLoad | kernel/policy/allowlist.c:376-533 | saving a list and loading it into an empty table gives the same map and default |
| AllowProfiles.ReachableSurvives | kernel/policy/allowlist.c:376-533 | the same for every list that sets, prunes and loads can reach |
| AllowProfiles.MigratesOnce | kernel/policy/allowlist.c:471-533 | an old file is migrated once: what is then saved loads unchanged and is not written again |
| AllowProfiles.SetThenGet | kernel/supercall/dispatch.c:282-384 | an accepted set, then a get with the same structure, returns it unchanged if and only if its domain is not renamed |
| AllowStack.JunkIsStored | kernel/policy/allowlist.c:508-524 | an old record's last bytes come from the stack if and only if the record is accepted and has no root |
| AllowStack.LoadIsFilled | kernel/policy/allowlist.c:508-524 | a load of an old file is the load on a zeroed stack with the stack's bytes filled into the stale entries |
| AllowStack.LoadsAgree | kernel/policy/allowlist.c:471-533 | two loads give the same list if and only if the stack was the same in the turns of the stale entries |
| AllowStack.StackMatters | kernel/policy/allowlist.c:471-533 | the loaded list never depends on the stack if and only if the file leaves no stale entry |
| AllowStack.OldFileShowsTheStack | kernel/policy/allowlist.c:508-524 | a concrete v3 file that loads differently on two stacks |
| AllowStack.SuProfileComesBackChanged | kernel/supercall/dispatch.c:282-384 | a concrete v2 profile that is accepted and does not come back as it was |
| AllowListStores.MigrateProfile | kernel/policy/allowlist.c:446-469 | the migration in the buffer, with its fall-through |
| AllowListStores.Store.SetAppProfile | kernel/policy/allowlist.c:139-225 | list, result and the caller's buffer are those of the set on values |
| AllowListStores.Store.DoSetAppProfile | kernel/supercall/dispatch.c:349-384 | copies the part that the caller's version has, zeroes the rest, and persists exactly after a success |
| AllowListStores.Store.DoGetAppProfile | kernel/supercall/dispatch.c:293-347 | overwrites the caller's structure in the size and version it asked for |
| AllowListStores.Store.Persist | kernel/policy/allowlist.c:376-416 | writes header and entries in table order |
| AllowListStores.Store.LoadAllowList | kernel/policy/allowlist.c:471-533 | loads record after record until one is short |
| DirectoryWalk.IterateDir | kernel/manager/throne_tracker.c:69-119 | appends exactly the subdirectories to descend to, and remembers the last package file |
| WalkMeaning.SubDirsInOrder | kernel/manager/throne_tracker.c:85-111 | the directories of a listing that are descended to: their names, kinds and path lengths, in the order of the listing |
| WalkMeaning.SubDirsAre | kernel/manager/throne_tracker.c:85-111 | the same as a set |
| WalkMeaning.CandidateIsLast | kernel/manager/throne_tracker.c:114-116 | the candidate is the path of the last regular file base.apk*, or empty if there is none |
| WalkMeaning.HoldsMeans | kernel/manager/throne_tracker.c:150-196 | a directory holds the manager if and only if it opens on the first file system and its last package file is one below /data/ap* |
| DirectoryWalk.Round | kernel/manager/throne_tracker.c:143-204 | with a prefetched next pointer, a round that starts with depths up to i ends with depths below i |
| DirectoryWalk.SearchManager | kernel/manager/throne_tracker.c:121-206 | depth + 1 rounds empty the list; a search that finds nothing has visited the whole tree, and it finds a manager if and only if the tree has one |
| DirectoryTree.TreeIsWays | kernel/manager/throne_tracker.c:98-111 | the tree has exactly the directories that a way of listed subdirectories within the depth limit leads to |
| DirectoryTree.TreeHasOnce | kernel/manager/throne_tracker.c:140-205 | no directory is in the tree twice |
| DirectoryTree.FileSystemIsForest | kernel/manager/throne_tracker.c:93-108 | on a file system the paths that the walk builds form a forest: siblings have nothing below both |
| DirectoryTree.VisitedOnce | kernel/manager/throne_tracker.c:140-205 | each directory within reach is in the visited tree exactly once, and nothing else is |
| DirectoryTree.SearchOnce | kernel/manager/throne_tracker.c:121-206 | no directory is visited twice, and a search that finds nothing has visited each directory within the depth limit exactly once |
| DirectoryWalk.VisitPending | kernel/manager/throne_tracker.c:98-111 | visiting an entry replaces it by its subdirectories in what the list stands for |
| Rendezvous.OnePatcher | kernel/non_gki/patch_memory_arm64.c:319-344 | in every run at most one CPU patches, once, after all have arrived, and nobody leaves before it ended |
| Rendezvous.AllLeft | kernel/non_gki/patch_memory_arm64.c:329-343 | when all have left, exactly one has patched and returns the result of its attempt, and all others return 0 |
| Rendezvous.ResultIsKept | kernel/non_gki/patch_memory_arm64.c:329-343 | in every run the patching CPU carries the result of its attempt until it returns it |
| Rendezvous.NeverStuck | kernel/non_gki/patch_memory_arm64.c:329-343 | no reachable unfinished state is stuck, whatever the patch returns |
| Rendezvous.EffectiveRunsEnd | kernel/non_gki/patch_memory_arm64.c:329-343 | a run of effective steps takes at most three per CPU |

## Left out

- RuleTables.RuleTable.Copy: that a copy reads the same is the contract taken for `ksu_dup_policydb`; it is not derived from `policydb_write` and `policydb_read`, which are kernel code.
- Extended permission rules (`add_xperm_rule_raw`): an existing node with the same driver is returned unchanged, so there is no merge to prove; the batch passes such commands on.
- Type rules, filename transitions and `add_genfscon` (a stub): they change parts of the policy no access decision reads; `PolicyBatch` keeps them as a list of calls with arbitrary results.
- Kernel internals behind the interfaces used here: avtab hashing, sidtab, ebitmaps, MLS parsing, `policydb_read` and `policydb_write`, kref, RCU, spinlocks, file I/O and crypto. `ksu_dup_policydb` is taken to give a copy that reads the same.
- PolicyDbs.PolicyDb.RemoveAvtabNode: the allocation of the temporary table for `avtab_destroy` is taken to succeed, so it cannot fail for a linked node.
- PolicyDbs.PolicyDb.NewTypeDatum: the two growth variants for other kernels are not modelled, nor failing allocations.
- Rollback of a single failing policy command: a type stays when its attribute is unknown, as in the code.
- Locks and payload memory on the early exits of `handle_sepolicy`.
- `ksu_event_queue_destroy` and `poll`: the event queue is modelled until it is destroyed.
- EventReaders.EventQueue.ReadEvents: a second reader is excluded by `read_lock`, which is not modelled; time stamps are parameters.
- AllowTables.Next: the table is a step system on values; `ksu_set_app_profile` searches and publishes in one step, which the mutex makes indistinguishable from the loop, and the profile's contents besides the uid are in AllowProfiles.
- AllowProfiles.Pruned: pruning is a function here; its unlinking is in AllowTables.
- AllowProfiles.SetThenGet: the caller's structure does not change between the two copies that the set makes of its version.
- ApkParser.CheckV2Signature: I/O errors and files that change while they are read; the loop over the known keys in `is_manager_apk`.
- DirectoryWalk.SearchManager: paths of the root longer than the buffer, and `crown_manager`'s effect on the uid list.
- Rendezvous.OnePatcher: cache maintenance and memory ordering; steps are sequentially consistent.
- The versions of these files for newer kernels (`kernel/selinux/`, `kernel/feature/selinux_hide.c`): the same algorithms with other kernel interfaces.
- Feature handlers, ioctl dispatch, hooks, mount namespaces, symbol lookup and page-table walking.
