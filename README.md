# deep_architect graph core, modelled in Dafny

This project models the computation-graph engine of deep_architect (`darch/core.py`). Its
parts are:

- the insertion-ordered set;
- the scope that gives every addressable object a unique readable name;
- hyperparameters, inputs, outputs and modules, with their registration, connection and
  value operations;
- the graph functions that sit on top of them:
  - `extract_unique_modules` and `determine_module_eval_seq`;
  - `traverse_backward` and `traverse_forward`;
  - `is_specified` and `get_unset_hyperparameters`;
  - `forward`;
  - `get_unconnected_inputs` and `get_unconnected_outputs`.

The Python objects point at each other: an input holds its output and its module, an
output holds the list of inputs it feeds, and a hyperparameter holds the modules that
depend on it. The model keeps them as an arena, `Nets.Net<V>`. It is four sequences of
records (modules, inputs, outputs, hyperparameters), and an id is an index into one of
them. `Nets.WellFormed` states the invariants the Python objects keep:

- every port belongs to exactly one module, under one role name;
- an input's `from_output` and that output's `to_inputs` agree;
- no output lists an input twice;
- a hyperparameter's dependents are exactly the modules that registered it.

The mutable object graph is the class `Graphs.Graph<V>`. It has the arena (`net`), its
`Scopes.Scope` and a ghost log of the hook calls the engine makes. The hooks are
`_update` after a hyperparameter is set, and `_compile` and `_forward` in
`Module.forward`. Every method keeps `Valid()`, which is well-formedness, a registered
name for every element, and a log that names only existing modules. Every method also
states how its new state relates to the old one. The registration methods state it
exactly: their new graph and scope are functions of the old ones
(`Registrations.AddPort`, `Registrations.AddPorts`, `Registrations.RegisterAll`).

`forward` takes each module's `_forward` as a hook: a function of the module id and the
input and hyperparameter values the module reads at its turn (`Values.Hook`). A module's
turn is specified by what its hook writes (`Values.Written`) and how the turn ends
(`Values.TurnOutcome`). `Graphs.Graph.Forward` then states which values the outputs hold
after a pass (`Values.Computed`). `ForwardScenarios` runs it on the chain `A -> B -> C`
with hooks that copy their input to their output.

The read-only graph algorithms are methods over a `Net` value:

- Their loops carry invariants.
- They are proved against ghost specifications:
  - `Walk` and `Reaches` for the traversals;
  - `ReadyAfter` for the evaluation order;
  - `Specified` and `UnsetOf` for the hyperparameter queries.
- One worklist engine, `Traversals.Traverse`, serves both traversals. It takes:
  - the neighbour relation, as a table: `Walks.PredsTable` (modules feeding a module)
    or `Walks.SuccsTable` (modules fed by a module);
  - the visitor's "stop here" answer, as a table per module.

The visitor's side effects are done by the callers over the visited sequence, in visit
order. These are collecting hyperparameters or ports, and flagging an unset
hyperparameter.

Python's failing `assert`s and `KeyError`s are modelled as `Failure(...)` outcomes
(`Base.Outcome`, `Base.Result`). A single registration, connection or assignment that fails
leaves the state unchanged. Where the source has already changed something before the
failing step, the model keeps that change, as the source does:

- `Register` and its three loops: the roles registered before the failing one stay
  registered, and the later loops do not run (`Registrations.RegisterAll`, with
  `Registrations.AddPortsOutcome` and `Registrations.AddDependenciesOutcome` saying
  exactly when a loop fails);
- `SetOutputValues`: the outputs assigned before the first unknown name keep their values;
- `RerouteConnectedOutput`: input `i` stays disconnected when `j` is already connected.

## Model

| member | source | states |
|---|---|---|
| OrderedSets.Added | darch/core.py:9-11 | the set after `add(x)` holds exactly the old members and `x`, keeps the old order as a prefix, is unchanged when `x` was present and never holds a duplicate |
| OrderedSets.AddAll | darch/core.py:13-16 | the set after `update(xs)` holds exactly the old members and those of `xs`, old order first, with no duplicate |
| OrderedSets.AddAllSnoc | darch/core.py:13-16 | adding a list one more element at a time is `add` of that element after the rest: `update` is a left fold of `add` |
| OrderedSets.AddAllPrefix | darch/core.py:14-16 | after the first `k + 1` loop steps of `update` the set is the set after `k` steps plus `xs[k]` |
| OrderedSets.AddAllAppend | darch/core.py:13-16 | `update(a + b)` is `update(a)` followed by `update(b)` |
| OrderedSets.OrderedSet.constructor | darch/core.py:6-7 | a new ordered set is empty |
| OrderedSets.OrderedSet.Add | darch/core.py:9-11 | `add` appends `x` exactly when it is absent (contents `Added(old, x)`), keeping the set duplicate-free |
| OrderedSets.OrderedSet.Update | darch/core.py:13-16 | the loop of `update` leaves the contents `AddAll(old, xs)`, duplicate-free |
| Scopes.NatToString | darch/core.py:58 | the decimal rendering `str(i)` is never empty and has one digit exactly below ten |
| Scopes.NatToStringInjective | darch/core.py:58 | two numbers with the same decimal rendering are equal |
| Scopes.CandidateInjective | darch/core.py:58 | the candidate names `prefix + str(i)` are pairwise distinct |
| Scopes.CandidatesBelowCount | darch/core.py:56-61 | there are exactly `i` distinct candidate names below index `i`, so finitely many registered names cannot block the search forever |
| Scopes.FirstUnusedUnique | darch/core.py:56-62 | the index at which `get_unused_name` stops is unique: the first candidate not registered |
| Scopes.Scope.constructor | darch/core.py:34-36 | a new scope has both maps empty |
| Scopes.Scope.GetName | darch/core.py:64-71 | the name of a registered element is found, and it maps back to that element; an unregistered element is the error case |
| Scopes.Scope.GetElem | darch/core.py:73-80 | a registered name is found, and its element has a name; an unknown name is the error case |
| Scopes.Scope.Register | darch/core.py:38-47 | registering a taken name fails with nothing changed; otherwise both maps gain the pair and the name and element resolve to each other |
| Scopes.Scope.GetUnusedName | darch/core.py:49-62 | the result is `prefix + str(i)` for the first `i` whose candidate is not registered, so it is unused |
| Scopes.DuplicateNameScenario | darch/core.py:38-47 | registering a second element under a taken name is refused and the first keeps its name |
| Scopes.UnusedNameTwice | darch/core.py:49-62 | asking twice without registering in between gives the same unused name |
| Nets.IndexOf | darch/core.py:291-293 | looking a role name up in a module's ordered dictionary finds an index with that name exactly when the name is present |
| Nets.RolesAppend | darch/core.py:302 | registering a role appends its name and its id at the end of the module's dictionary |
| Nets.WellFormedPortsOwned | darch/core.py:180 | in a well-formed graph every input and output names an existing owning module |
| Nets.SymmetricLinks | darch/core.py:204-205 | input `i` is in output `o`'s `to_inputs` exactly when `i`'s `from_output` is `o`, and `to_inputs` has no duplicate |
| Nets.SameShapeWellFormed | darch/core.py:147 | changing only values and compiled flags keeps a graph well-formed |
| NetOps.Remove | darch/core.py:209 | `list.remove` drops one occurrence: the list shrinks by one exactly when the element was present |
| NetOps.RemoveAt | darch/core.py:209 | `list.remove` drops the first occurrence: removing `s[k]`, first seen at `k`, cuts position `k` |
| NetOps.CutNoDup | darch/core.py:209 | cutting one position from a duplicate-free list keeps it duplicate-free and loses exactly that element |
| NetOps.RemoveNoDup | darch/core.py:209 | removing from a duplicate-free list loses exactly the removed element |
| NetOps.RemoveLast | darch/core.py:205-209 | removing the element just appended restores the list |
| NetOps.ConnectWellFormed | darch/core.py:195-205 | connecting an unconnected input to an output keeps the graph well-formed |
| NetOps.DisconnectWellFormed | darch/core.py:207-210 | disconnecting a connected input keeps the graph well-formed |
| NetOps.ConnectDisconnectRoundTrip | darch/core.py:195-210 | `connect` followed by `disconnect` restores the graph exactly |
| NetOps.ModuleWellFormed | darch/core.py:281-294 | adding a fresh module without ports keeps the graph well-formed |
| NetOps.HyperpWellFormed | darch/core.py:124-135 | adding a fresh unset hyperparameter keeps the graph well-formed |
| NetOps.InputWellFormed | darch/core.py:296-302 | adding an input under a fresh role name keeps the graph well-formed |
| NetOps.OutputWellFormed | darch/core.py:304-310 | adding an output under a fresh role name keeps the graph well-formed |
| NetOps.DependencyWellFormed | darch/core.py:312-319 | registering a hyperparameter under a fresh role (and the module as its dependent) keeps the graph well-formed |
| NetOps.DependencyModuleOk | darch/core.py:318 | after the registration every module record is still consistent |
| NetOps.DependencyHyperpOk | darch/core.py:156-160 | after the registration every hyperparameter's dependents are still exactly its registering modules |
| NetOps.WithHyperpValue | darch/core.py:146-147 | setting a hyperparameter's value changes no structure |
| Graphs.InputLinked | darch/core.py:183-184 | an input has an output exactly when some output lists it |
| Graphs.OutputLinked | darch/core.py:245-249 | an output's `to_inputs` are exactly the inputs connected to it, each once |
| Graphs.Notified | darch/core.py:149-150 | setting a value calls `_update` once per dependent, in dependency order |
| Graphs.NotifiedFacts | darch/core.py:149-150 | a module is notified exactly when it depends on the hyperparameter, and no module twice |
| Graphs.WithCompiled | darch/core.py:380-382 | compiling a module changes only that module's flag |
| Graphs.LogCompile | darch/core.py:380-383 | recording the compile call of an existing module keeps the log well-formed |
| Graphs.InputIds | darch/core.py:539 | the keys of `input_to_val`, in order |
| Graphs.ForwardedModules | darch/core.py:544-545 | the modules whose `_forward` hook ran, read from the hook log |
| Graphs.ForwardedRun | darch/core.py:374-383 | one `Module.forward` call adds exactly that module to the forwarded sequence, whether or not it compiles first |
| Graphs.ForwardedSuffix | darch/core.py:544-545 | the same, for the part of the log written since a given point |
| Graphs.RegisteredKept | darch/core.py:102 | changes that keep every element keep its registered name |
| Graphs.BookkeepingKept | darch/core.py:102 | changes that keep the elements keep both the names and the hook log valid |
| Graphs.LogSnoc | darch/core.py:149-150 | logging a hook call on an existing module keeps the log valid |
| Graphs.Graph.constructor | darch/core.py:34-36 | an empty graph with a fresh empty scope and an empty hook log |
| Graphs.Graph.GetName | darch/core.py:108-109 | every element of the graph has a name, and the name resolves back to it |
| Graphs.Graph.NewModule | darch/core.py:281-294 | a new module gets the first unused name `M.<name or class>-<i>`, is registered under it, and has no ports, no hyperparameters and is not compiled; both name maps of the scope gain exactly the new pair, so every other element keeps its name |
| Graphs.Graph.NewHyperparameter | darch/core.py:124-135 | a new hyperparameter gets the first unused name `H.<name or class>-<i>`, is registered, unset and without dependents; both name maps of the scope gain exactly the new pair, so every other element keeps its name |
| Graphs.Graph.RegisterInput | darch/core.py:296-302 | the new graph and scope are `AddPort` of the old ones: a role name the module already has fails with `DuplicateRole`, and a port name `<module>.I.<role>` already registered fails with `DuplicateName`, both with nothing changed; otherwise a fresh unconnected input is added and registered under that name |
| Graphs.Graph.RegisterOutput | darch/core.py:304-310 | the same as for inputs, through `AddPort`, with `<module>.O.<role>` and an output that feeds nothing |
| Graphs.Graph.RegisterHyperparameter | darch/core.py:312-319 | the new graph is `AddDependency` of the old one: a role the module already has fails with `DuplicateRole` and nothing changed; otherwise the module gains the role and the hyperparameter gains the module as dependent |
| Graphs.Graph.Register | darch/core.py:321-331 | the new graph and scope are `RegisterAll` of the old ones: inputs, then outputs, then hyperparameter roles, each registered in turn; the first failure ends `_register` and keeps every registration made before it; on success each kind of role is extended by the given names in order |
| Graphs.Graph.RegisterInputs | darch/core.py:326-327 | the new graph and scope are the fold `AddPorts` over the names: each input registered in turn, the first failure ending the loop with the earlier inputs kept; on success the input roles are extended by the names in order; outputs and hyperparameters are untouched |
| Graphs.Graph.RegisterOutputs | darch/core.py:328-329 | the fold `AddPorts` over the output names, as for inputs; inputs and hyperparameters are untouched |
| Graphs.Graph.RegisterHyperparameters | darch/core.py:330-331 | the new graph is the fold `AddDependencies` over the roles: the first failure ends the loop with the earlier roles kept; on success the hyperparameter roles are extended in order; ports and the scope are untouched |
| Registrations.PortNames | darch/core.py:172-178 | the port names of a module's role names are `<module>.<kind>.<role>`, one per role, in order |
| Registrations.PortNameInjective | darch/core.py:177 | two roles of the same module and kind with the same port name have the same role name |
| Registrations.AddPortsStuck | darch/core.py:326-329 | once a port registration has failed, the rest of the loop changes nothing: the exception leaves the loop |
| Registrations.AddPortsPass | darch/core.py:296-310 | when every port registers, the module's roles of that kind are the old ones followed by the names, and the scope gains exactly their port names |
| Registrations.AddPortLast | darch/core.py:296-310 | after ports that registered, one more registers exactly when its role name is neither an old role nor one just added and its port name was not registered before |
| Registrations.FreshPortsSnoc | darch/core.py:326-329 | the names are all fresh exactly when all but the last are and the last is fresh after them |
| Registrations.AddPortsOutcome | darch/core.py:296-310 | registering a list of ports succeeds exactly when no role name is already a role of that kind, none repeats an earlier one, and no port name is already registered |
| Registrations.AddDependenciesStuck | darch/core.py:330-331 | once a role registration has failed, the rest of the loop changes nothing |
| Registrations.AddDependenciesPass | darch/core.py:312-319 | when every role registers, the module's roles are the old ones followed by the given ones |
| Registrations.AddDependenciesOutcome | darch/core.py:312-319 | registering a list of roles succeeds exactly when no role is already one of the module and no role repeats |
| Graphs.Graph.InputIsConnected | darch/core.py:183-184 | an input is connected exactly when some output lists it |
| Graphs.Graph.GetConnectedOutput | darch/core.py:186-190 | the output named is one that lists the input; none means no output lists it |
| Graphs.Graph.OutputIsConnected | darch/core.py:242-243 | an output is connected exactly when some input names it |
| Graphs.Graph.GetConnectedInputs | darch/core.py:245-249 | exactly the inputs whose output is this one, each once |
| Graphs.Graph.InputModule | darch/core.py:192-193 | the module that lists the input among its inputs |
| Graphs.Graph.OutputModule | darch/core.py:251-252 | the module that lists the output among its outputs |
| Graphs.Graph.Connect | darch/core.py:195-205 | an already connected input fails with nothing changed; otherwise the input points at the output and the output's list gains the input at its end |
| Graphs.Graph.Disconnect | darch/core.py:207-210 | an unconnected input fails with nothing changed; otherwise the input is free and its output's list has lost exactly that input |
| Graphs.Graph.RerouteConnectedOutput | darch/core.py:212-222 | the output of input `i` moves to input `j`; an unconnected `i` fails with nothing changed; an already connected `j` fails after `i` has been disconnected, as the Python does |
| Graphs.Graph.GetVal | darch/core.py:152-154 | a value is returned exactly when the hyperparameter is set |
| Graphs.Graph.SetVal | darch/core.py:143-150 | a set hyperparameter fails; a rejected value fails; otherwise it is set to `v` and `_update` runs once per dependent module, in order |
| Graphs.Graph.MoveInput | darch/core.py:273-275 | one step of the rerouting loop: the input is disconnected and, when a target is given, connected to it |
| Graphs.Graph.DisconnectAll | darch/core.py:262-264 | as written: only the inputs at even positions of the list are disconnected; those at odd positions stay connected (see Findings) |
| Graphs.Graph.DisconnectAllSnapshot | darch/core.py:262-264 | corrected: every input of the output is disconnected and nothing else changes |
| Graphs.Graph.RerouteAllConnectedInputs | darch/core.py:267-275 | as written: only the inputs at even positions move to the new output, appended in order (see Findings) |
| Graphs.Graph.RerouteAllSnapshot | darch/core.py:267-275 | corrected: every input moves, in order, to the end of the new output's list, and the old output is left unconnected |
| Graphs.Graph.GetInputValues | darch/core.py:333-337 | the map from each input role to its input's value; an input without a value is the error case |
| Graphs.Graph.GetHyperpValues | darch/core.py:339-343 | the map from each hyperparameter role to its value; an unset hyperparameter is the error case |
| Graphs.Graph.SetOutputValues | darch/core.py:345-350 | the named outputs get their values in order, later names overriding earlier; the first unknown name stops the loop with an error, keeping the assignments made before it |
| Graphs.Graph.AssignedValid | darch/core.py:345-350 | assigning output values keeps the graph well-formed and registered |
| Graphs.Graph.ModuleForward | darch/core.py:374-383 | `_compile` runs and sets the compiled flag only on the first call; `_forward` runs every time |
| Graphs.Graph.FeedInputs | darch/core.py:547-548 | every input fed by the output receives the output's value; nothing else changes |
| Graphs.Graph.PropagateFrom | darch/core.py:546-548 | every output of the module feeds its inputs; a connected output without a value is the error case; only inputs of the fed modules change |
| Graphs.Graph.RunModule | darch/core.py:544-548 | one turn of `forward`. The module is compiled at most once and forwarded once. Its hook reads the values its inputs and hyperparameters hold at that moment. Each output of the module then holds the last value the hook gave its name, up to the first name that is not an output. The turn fails with `UnknownName` exactly when the hook names something that is not an output. Otherwise it fails with `MissingValue` exactly when a connected output of the module holds no value. Otherwise every output has passed its value on. Only the module's own state and the inputs it feeds change |
| Graphs.Graph.WriteOutputs | darch/core.py:345-350 | `_set_output_values` followed by the feeding loop. The outputs take the last value given to their name, up to the first unknown name, which fails with `UnknownName`. A connected output without a value fails with `MissingValue`. Otherwise every output is passed on |
| Graphs.Graph.RunModules | darch/core.py:544-548 | the modules are forwarded exactly in the given order. A failing turn ends the loop with its error. On success each module has passed its outputs on and inputs fed by none keep their values. Every module that ran once, and that no module at or after its turn feeds, holds what its hook writes from the values it reads at the end (`Computed`) |
| Graphs.Graph.RunNext | darch/core.py:544-548 | one more module of the sequence runs; the run invariant and `Computed` extend by that turn |
| Graphs.Graph.ModuleOrder | darch/core.py:538-539 | the given `_module_seq`, or else `determine_module_eval_seq` of the keys, with that function's guarantees |
| Graphs.Graph.Forward | darch/core.py:527-548 | with no sequence given, the order is `determine_module_eval_seq` of the keys, and the modules are forwarded in that order. Failure is `UnknownName` or `MissingValue`. On success every module has propagated its outputs, and inputs fed by no module hold the last value given for them. For a duplicate-free order, a module that no module at or after its turn feeds holds in its outputs what its hook writes from the final values of its inputs and hyperparameters |
| Graphs.Graph.SetInputValues | darch/core.py:541-542 | each input takes the last value the list gives it; the others are unchanged |
| Values.InputVals | darch/core.py:333-337 | the values of all inputs, by id |
| Values.HyperpVals | darch/core.py:339-343 | the values of all hyperparameters, by id |
| Values.ValuesOf | darch/core.py:333-343 | the role-to-value map is defined exactly when every role has a value, holds every role name and no other, and gives each role its value |
| Values.NamesTail | darch/core.py:291-293 | the role names of a dictionary are its first name followed by the rest, and stay distinct |
| Values.KnownPrefix | darch/core.py:349-350 | how far the assignment loop gets: every name before it is an output role and the one at it is not |
| Values.LastValue | darch/core.py:541-542 | a later entry for the same input overrides an earlier one |
| Values.LastValueSnoc | darch/core.py:541-542 | the value after one more entry is that entry's value if it names the key, else the previous one |
| Values.AssignedStart | darch/core.py:349 | before the loop no output has changed |
| Values.AssignStep | darch/core.py:350 | one assignment step keeps the assigned-so-far relation |
| Values.SameShapeTrans | darch/core.py:544-548 | value-only changes compose |
| Values.OnlyTouchedTrans | darch/core.py:544-548 | changes confined to one module's state compose |
| Values.PropagatedKept | darch/core.py:544-548 | a module whose outputs have been passed on stays so while later steps touch other modules |
| Values.FedAllFacts | darch/core.py:547-548 | after feeding, the output's inputs hold its value, only fed modules changed, and other outputs already passed on stay so |
| Values.AssignedOnlyTouched | darch/core.py:345-350 | assigning output values changes only that module's own outputs |
| Values.FedPrefixStart | darch/core.py:547 | before the feeding loop nothing has been fed |
| Values.FedPrefixStep | darch/core.py:548 | one feeding step extends the fed prefix of the list |
| Values.FedPrefixDone | darch/core.py:547-548 | the finished loop has fed every connected input |
| Values.OnlyTouchedRefl | darch/core.py:546-548 | an output that feeds nothing changes nothing |
| Values.InputsAssignedStart | darch/core.py:541 | before the loop no input has changed |
| Values.InputsAssignedStep | darch/core.py:542 | one step keeps "each input holds the last value given so far" |
| Values.SameShapeFedFrom | darch/core.py:544-548 | which module feeds which input does not change while values flow |
| Values.RunStart | darch/core.py:544 | before the module loop nothing has run |
| Values.RunStep | darch/core.py:544-548 | one more module run keeps the run invariant: modules run so far have propagated, unfed inputs unchanged |
| Values.Readable | darch/core.py:333-343 | the dictionary a hook reads from a module's roles: a role name is a key exactly when its element holds a value, and with distinct role names each key maps to its element's value |
| Values.NamesApart | darch/core.py:291-293 | with distinct role names, the first name of a dictionary is none of the later ones |
| Values.ReadableValuesOf | darch/core.py:333-343 | when every role has a value, what the hook reads is exactly the dictionary `_get_input_values` or `_get_hyperp_values` builds |
| Values.ReadableKept | darch/core.py:333-343 | what the hook reads depends only on the values of the elements its roles name |
| Values.ViewsKept | darch/core.py:374-383 | a module's hook reads the same values, and so writes the same, in two states that agree on the module's roles, its inputs' values and the hyperparameters |
| Values.AssignedWritten | darch/core.py:345-350 | an assignment loop stopped at the first unknown name leaves each output with the last value given to its name, or with its old value |
| Values.ComputedStart | darch/core.py:544 | before the module loop nothing has run and nothing is claimed |
| Values.SameShapeFeeds | darch/core.py:424-426 | which module feeds which does not change while values flow |
| Values.WrittenKept | darch/core.py:544-548 | a turn of a module that does not feed `m` leaves what the hook of `m` writes unchanged |
| Values.UnrunKept | darch/core.py:544-548 | outputs of modules that have not run yet keep their starting values |
| Values.EarlierKept | darch/core.py:544-548 | a module that holds what its hook writes keeps doing so across a turn of another module that does not feed it |
| Values.LatestWritten | darch/core.py:544-548 | the module that just ran, if it does not feed itself, holds what its hook writes from the values it now reads |
| Values.ComputedStep | darch/core.py:544-548 | one more turn keeps `Computed` |
| Values.ComputedAt | darch/core.py:544-548 | after one more turn, a module that ran once and that nothing at or after its turn feeds holds what its hook writes |
| Values.ComputedEnd | darch/core.py:538-548 | `Computed` after the whole pass, restated from the state before the inputs were given values |
| Values.SeedsKept | darch/core.py:541-548 | an input that no module of the order feeds ends the pass with the last value given for it |
| EvalOrder.FedFromMeaning | darch/core.py:424-426 | a module feeds an input exactly when one of its outputs lists it |
| EvalOrder.FeedOutputs | darch/core.py:424-428 | after a chosen module the available inputs gain exactly those it feeds, and the worklist gains exactly their modules |
| EvalOrder.AvailableSnoc | darch/core.py:417-426 | the inputs available after one more module are the old ones plus those it feeds |
| EvalOrder.EvalStart | darch/core.py:415-418 | the loop invariants hold at the start |
| EvalOrder.StartCandidates | darch/core.py:418 | the initial worklist names every module with an available input, each of which has inputs |
| EvalOrder.StartCandidatesHaveInputs | darch/core.py:418 | every module of the initial worklist has inputs |
| EvalOrder.StartCandidatesCover | darch/core.py:418 | the initial worklist holds the owner of every given input |
| EvalOrder.SkipStep | darch/core.py:420 | skipping a module already taken or not yet ready keeps the invariants |
| EvalOrder.TakeStep | darch/core.py:420-428 | taking a ready module keeps the order, memo and queue invariants |
| EvalOrder.TakeScanStep | darch/core.py:420-428 | taking a ready module keeps the scan invariant |
| EvalOrder.EvalEnd | darch/core.py:419-429 | when the worklist is exhausted every module with inputs that is ready is in the sequence |
| EvalOrder.TakeNext | darch/core.py:421-428 | appending a ready module and feeding its outputs keeps every loop invariant and grows the taken set |
| EvalOrder.ScanNext | darch/core.py:419-428 | one worklist step keeps every invariant and either takes a module or changes nothing |
| EvalOrder.DetermineModuleEvalSeq | darch/core.py:401-429 | no module twice; each module's inputs are all given or fed by earlier modules; every module with inputs that becomes ready is included |
| Walks.Owners | darch/core.py:396 | the module of each port, in order |
| Walks.InPorts | darch/core.py:386-397 | inputs as ports |
| Walks.OutPorts | darch/core.py:386-397 | outputs as ports |
| Walks.ExtractUniqueModules | darch/core.py:386-397 | the modules of the ports, first occurrence order, each once, and exactly those |
| Walks.UniqueOwnersFacts | darch/core.py:386-397 | the unique owners are duplicate-free, exactly the ports' modules, and existing modules |
| Walks.Upstream | darch/core.py:447-450 | the modules feeding any of the given inputs |
| Walks.InputOwners | darch/core.py:476-479 | the modules owning any of the given inputs |
| Walks.Downstream | darch/core.py:476-479 | the modules owning an input fed by any of the given outputs |
| Walks.PredsMeaning | darch/core.py:447-450 | the backward neighbours of a module are exactly the modules feeding one of its inputs |
| Walks.SuccsMeaning | darch/core.py:476-479 | the forward neighbours are exactly the modules with an input fed by one of its outputs |
| Walks.TablesBounded | darch/core.py:447-479 | neighbours are existing modules |
| Walks.TraverseBackward | darch/core.py:432-455 | as written: a walk from the outputs' modules over feeding modules; if not stopped, every neighbour of a visited module is visited after the seeds; the visit order is the worklist order `BackwardOrder` (a prefix of it when stopped) |
| Walks.TraverseBackwardOnce | darch/core.py:432-455 | corrected (seeds in the memo): the same walk, never visiting a module twice, in the order `BackwardOrder` of the corrected worklist |
| Walks.TraverseForward | darch/core.py:458-482 | as written: a walk from the inputs' modules over fed modules, closed under neighbours when not stopped, in the worklist order `ForwardOrder` (a prefix of it when stopped) |
| Walks.TraverseForwardOnce | darch/core.py:458-482 | corrected: the same walk, never visiting a module twice, in the order `ForwardOrder` of the corrected worklist |
| Traversals.BoundedSetCardinality | darch/core.py:443-455 | a memo of module ids below `n` has at most `n` members, so the worklist is finite |
| Traversals.ReachableWithinClosed | darch/core.py:443-455 | anything derived from the seeds lies in every neighbour-closed list starting with them |
| Traversals.WalkReaches | darch/core.py:443-455 | every visited module is reachable from the seeds; if the walk was not stopped every reachable module is visited |
| Traversals.EnqueueUnseen | darch/core.py:449-453 | the neighbours not in the memo are appended in neighbour order, each once, and added to the memo: exactly the reference `Unseen` of the memo and the neighbours |
| Traversals.UnseenEnqueued | darch/core.py:449-453 | the neighbours appended are exactly those not yet in the memo, once each; the memo grows by exactly them and then holds every neighbour |
| Traversals.FirstMemo | darch/core.py:443 | the memo starts empty as written, and holds exactly the seeds in the corrected variant |
| Traversals.Queue | darch/core.py:443-453 | the worklist after `k` visits starts with the seeds |
| Traversals.QueueGrows | darch/core.py:445-453 | one more visit only appends to the worklist |
| Traversals.QueuePrefix | darch/core.py:445-453 | the worklist after `j` visits is a prefix of the worklist after any later number of visits |
| Traversals.QueueSettled | darch/core.py:445-453 | once every queued module has been visited the worklist no longer changes |
| Traversals.StartQueue | darch/core.py:443-444 | the loop invariant holds for the initial worklist and memo, which are the order's starting point |
| Traversals.VisitNext | darch/core.py:449-453 | visiting one more unstopped module keeps the loop invariant, moving the worklist one step along `Queue`, with the memo growing as the worklist does |
| Traversals.OrderEnd | darch/core.py:445-455 | when the loop ends, the visited modules are a prefix of `BfsOrder`, and all of it when not stopped |
| Traversals.ShapeStep | darch/core.py:449-453 | one step keeps memo and worklist in agreement |
| Traversals.FoundStep | darch/core.py:449-453 | appended modules are neighbours of the current one |
| Traversals.DoneStep | darch/core.py:449-453 | every neighbour of a processed module is in the memo |
| Traversals.SeenStep | darch/core.py:443-453 | with the seeds in the memo, nothing is queued twice |
| Traversals.TraverseStart | darch/core.py:443-444 | the invariants hold for the initial worklist |
| Traversals.TraverseStep | darch/core.py:445-453 | one iteration keeps the invariants |
| Traversals.Traverse | darch/core.py:432-482 | visits a walk from the seeds, stopping at the first module the visitor stops on; closed under neighbours when not stopped; duplicate-free when the seeds start in the memo; the visited sequence is a prefix of the worklist order `BfsOrder` and all of it when not stopped |
| Traversals.RunQueue | darch/core.py:445-453 | the loop ends at the stopping module or at the end of the worklist, with the worklist and memo equal to `Queue` of the modules visited |
| Traversals.TraverseEnd | darch/core.py:445-455 | the visited prefix is a walk with the stated closure and uniqueness, and a prefix of `BfsOrder` (all of it when not stopped) |
| Traversals.DerivationOf | darch/core.py:445-453 | every visited module was found from the seeds |
| Queries.Select | darch/core.py:559-561 | the ids of a role dictionary whose flag holds, each once |
| Queries.IdsTail | darch/core.py:559-561 | the ids of a dictionary are its first id followed by the rest's, and stay distinct |
| Queries.UnsetMask | darch/core.py:497 | flags exactly the hyperparameters without a value |
| Queries.FreeInputMask | darch/core.py:560 | flags exactly the inputs without an output |
| Queries.FreeOutputMask | darch/core.py:576 | flags exactly the outputs feeding nothing |
| Queries.FreeInputsMeaning | darch/core.py:559-561 | a module's free inputs are exactly its unconnected inputs, each once |
| Queries.FreeOutputsMeaning | darch/core.py:575-577 | a module's free outputs are exactly its unconnected outputs, each once |
| Queries.UnsetLists | darch/core.py:519-521 | entry `m` lists the unset hyperparameters of module `m`, in role order |
| Queries.FreeInputLists | darch/core.py:559-561 | entry `m` lists the unconnected inputs of module `m`, in role order |
| Queries.FreeOutputLists | darch/core.py:575-577 | entry `m` lists the unconnected outputs of module `m`, in role order |
| Queries.AlongMembers | darch/core.py:558-562 | the list a collecting visitor builds holds exactly the entries of the visited modules |
| Queries.AlongPrefix | darch/core.py:558-562 | what the first modules contribute is a prefix of what a longer visit contributes |
| Queries.AlongAt | darch/core.py:558-562 | a visited module's first entry sits right after what the modules before it contributed |
| Queries.AlongRepeats | darch/core.py:558-562 | a module visited twice with a non-empty entry makes the collected list repeat an element |
| Queries.AlongNoDup | darch/core.py:558-562 | entries without repetitions, each listing only elements owned by its module, collect a list without repetitions along modules that do not repeat |
| Queries.UnsetTable | darch/core.py:495-500 | the visitor's stop answer for each module |
| Queries.IsSpecified | darch/core.py:485-502 | true exactly when no module reachable backward from the outputs has an unset hyperparameter |
| Queries.SpecifiedWalk | darch/core.py:494-502 | a backward walk that stops at modules with an unset hyperparameter is not stopped exactly when the outputs are specified |
| Queries.CollectUnset | darch/core.py:518-522 | the ordered set built by adding each visited module's unset hyperparameters in visit order: exactly those hyperparameters, each once, in order of first appearance |
| Queries.UnsetStep | darch/core.py:518-522 | adding one more visited module's unset hyperparameters extends the ordered set to the one for the longer visit |
| Queries.UnsetCollected | darch/core.py:505-524 | the hyperparameters collected along the modules reachable backward are exactly their unset ones, and some exist when the outputs are not specified |
| Queries.GetUnsetHyperparameters | darch/core.py:505-524 | fails exactly when everything is specified; otherwise the ordered set of the unset hyperparameters along the backward walk order `BackwardOrder`: non-empty, duplicate-free, and exactly the unset hyperparameters of modules reachable backward |
| Queries.CollectFreeInputs | darch/core.py:558-562 | the concatenation, in visit order, of each visited module's unconnected inputs: exactly the unconnected inputs of the visited modules, each once if the modules are |
| Queries.CollectFreeOutputs | darch/core.py:574-578 | the concatenation, in visit order, of each visited module's unconnected outputs: exactly the unconnected outputs of the visited modules, each once if the modules are |
| Queries.FreeInputsAlong | darch/core.py:558-562 | the inputs collected along modules are exactly the unconnected inputs of those modules |
| Queries.FreeInputsAlongNoDup | darch/core.py:558-562 | along modules that do not repeat, no unconnected input is collected twice |
| Queries.FreeInputsOwned | darch/core.py:559-561 | each module's list of unconnected inputs has no repetitions and holds only inputs the module owns |
| Queries.FreeOutputsAlong | darch/core.py:574-578 | the outputs collected along modules are exactly the unconnected outputs of those modules |
| Queries.FreeOutputsAlongNoDup | darch/core.py:574-578 | along modules that do not repeat, no unconnected output is collected twice |
| Queries.FreeOutputsOwned | darch/core.py:575-577 | each module's list of unconnected outputs has no repetitions and holds only outputs the module owns |
| Queries.ConcatNoDup | darch/core.py:558-562 | concatenating disjoint duplicate-free lists stays duplicate-free |
| Queries.GetUnconnectedInputs | darch/core.py:551-564 | as written: the unconnected inputs of each module along the backward walk order `BackwardOrder`, module after module, so exactly the unconnected inputs of modules reachable backward from the outputs |
| Queries.GetUnconnectedInputsOnce | darch/core.py:551-564 | corrected: the same concatenation along the corrected walk order, each input listed once |
| Queries.GetUnconnectedOutputs | darch/core.py:567-580 | as written: the unconnected outputs of each module along the forward walk order `ForwardOrder`, module after module, so exactly the unconnected outputs of modules reachable forward from the inputs |
| Queries.GetUnconnectedOutputsOnce | darch/core.py:567-580 | corrected: the same concatenation along the corrected walk order, each output listed once |
| FanOuts.EvenPositions | darch/core.py:263-264 | the elements at even positions, in order |
| FanOuts.OddPositions | darch/core.py:263-264 | the elements at odd positions, in order |
| FanOuts.PositionsSplit | darch/core.py:263-264 | the even and odd positions together hold the whole list, disjointly when it has no duplicate |
| FanOuts.PositionsStep | darch/core.py:263-264 | one iteration over the live list visits the next even position and leaves the odd one behind |
| FanOuts.RewireStep | darch/core.py:273-275 | moving the next input keeps the rewired relation |
| FanOuts.NextUnseen | darch/core.py:263-264 | the next element was not seen before |
| FanOuts.SnapshotStep | darch/core.py:263-275 | over a copy of the list, one step moves the next input |
| FanOuts.LiveStep | darch/core.py:263-275 | over the live list, one step moves the input at position `2t` of the original list |
| FanOuts.LiveLength | darch/core.py:263-264 | the live-list loop ends once it has passed half the list |
| FanOuts.RewiredStart | darch/core.py:263-275 | at the start nothing is moved |
| FanOuts.SecondStaysConnected | darch/core.py:262-264 | with two or more inputs, the second one is still connected after `disconnect_all` |
| WalkScenarios.Chain | darch/core.py:432-482 | a graph `A -> B` of two modules with one input and one output each |
| WalkScenarios.ChainWellFormed | darch/core.py:195-205 | the chain graph is well-formed |
| WalkScenarios.ChainSeeds | darch/core.py:386-397 | the outputs (and inputs) of `A` and `B` give the seeds `A, B` |
| WalkScenarios.ChainLink | darch/core.py:447-479 | `A` feeds `B`: `B` is a forward neighbour of `A` and `A` a backward neighbour of `B` |
| WalkScenarios.NeighbourAfterSeeds | darch/core.py:443-453 | in the as-written walk, a neighbour of a seed is visited again after the seeds |
| WalkScenarios.BackwardRevisitsSeed | darch/core.py:432-455 | walking backward from both outputs visits `A` twice |
| WalkScenarios.ForwardRevisitsSeed | darch/core.py:458-482 | walking forward from both inputs visits `B` twice |
| WalkScenarios.SeedsOnly | darch/core.py:443-453 | a duplicate-free unstopped walk from `A, B` in this graph is exactly `A, B` |
| WalkScenarios.BackwardOnceVisitsEach | darch/core.py:432-455 | the corrected backward walk visits `A` and `B` once each |
| WalkScenarios.UnconnectedInputsTwice | darch/core.py:551-564 | `get_unconnected_inputs` from the outputs of `A` and `B` lists only the free input of `A`, more than once |
| WalkScenarios.UnconnectedOutputsTwice | darch/core.py:567-580 | `get_unconnected_outputs` from the inputs of `A` and `B` lists only the free output of `B`, more than once |
| EvalScenarios.Chain3WellFormed | darch/core.py:195-205 | the chain `A -> B -> C` is well-formed |
| EvalScenarios.Chain3Feeds | darch/core.py:424-426 | in the chain, only `A` feeds the input of `B` and only `B` feeds the input of `C` |
| EvalScenarios.Chain3Ready | darch/core.py:417-426 | given the input of `A`: `A` is ready at once, `B` exactly once `A` has run, `C` exactly once `B` has run |
| EvalScenarios.ChainSequence | darch/core.py:401-429 | a sequence with the properties `determine_module_eval_seq` guarantees is, on the chain, exactly `A, B, C` |
| EvalScenarios.ChainEvalOrder | darch/core.py:401-429 | `determine_module_eval_seq` given the input of `A` returns `A, B, C` |
| ForwardScenarios.Identity | darch/core.py:380-383 | a forward hook that copies input `in` to output `out`, and writes nothing while `in` has no value |
| ForwardScenarios.IdentityWrites | darch/core.py:333-350 | on a chain module whose input holds `v`, the identity hook writes exactly `out` := `v` |
| ForwardScenarios.ChainFeedsEarlier | darch/core.py:424-426 | in `A -> B -> C`, no module at or after a module's position feeds it |
| ForwardScenarios.ChainNotFed | darch/core.py:424-426 | the same, for every later position of the order `A, B, C` at once |
| ForwardScenarios.ChainAt | darch/core.py:195-205 | module `p` of the chain has the input and output of id `p`, and output `p` feeds input `p + 1` |
| ForwardScenarios.ChainTurn | darch/core.py:544-548 | at the end of a pass, a chain module whose input holds `v` holds `v` on its output and has passed it to the next module's input |
| ForwardScenarios.ChainValues | darch/core.py:527-548 | given 5 on the input of `A`, a finished pass leaves 5 on the inputs of `B` and `C` and on the output of `C` |
| ForwardScenarios.ChainSeeded | darch/core.py:541-542 | no chain module feeds `A`, so the input of `A` keeps the given 5 |
| ForwardScenarios.ChainSettled | darch/core.py:544-548 | in the order `A, B, C` every module has propagated and holds what its hook writes |
| ForwardScenarios.ChainForward | darch/core.py:527-548 | `forward({A.input: 5})` with identity hooks runs `A, B, C` and, when it succeeds, leaves 5 on the inputs of `B` and `C` and on the output of `C` |
| Registrations.AddPort | darch/core.py:296-310 | registering one port succeeds exactly when the role name is new for the module and the port name is unregistered. A repeated role fails with `DuplicateRole`. A failure changes nothing. On success the module's roles of that kind gain the name at the end, and the scope maps the port name to the new port and back |
| Registrations.AddPorts | darch/core.py:326-329 | the loop over port names keeps the module count and the hyperparameters, and leaves the module's roles of the other kind untouched |
| Registrations.AddDependency | darch/core.py:312-319 | registering one hyperparameter role succeeds exactly when the role is new for the module. A failure is `DuplicateRole` with nothing changed. On success the module's roles gain `(role, h)` at the end and `h` lists the module as dependent. The scope and the ports are untouched |
| Registrations.AddDependencies | darch/core.py:330-331 | the loop over roles leaves the scope and the module's ports untouched |
| Registrations.RegisterAll | darch/core.py:321-331 | on success of `_register`, the module's input and output role names are the old ones followed by the given ones, and its hyperparameter roles likewise. The scope gains exactly the new port names |
| NetOps.WithConnection | darch/core.py:195-205 | after `connect` the input points at the output and the output lists the input last; no other input, output, module or hyperparameter changes |
| NetOps.WithoutConnection | darch/core.py:207-210 | after `disconnect` the input points nowhere. Its output's list is one shorter when it held the input, and when duplicate-free it holds every other input and not this one. Nothing else changes |
| NetOps.RemoveMembers | darch/core.py:209 | removal from a duplicate-free list leaves exactly the other elements |
| Graphs.Graph.LiveNext | darch/core.py:263-275 | one iteration of the loop over the live list, as written: it moves the input at the current position, which is the one at position `2t` of the original list |
| Traversals.BfsOrder | darch/core.py:443-453 | the breadth-first order of an unstopped walk, which starts with the seeds |

## Left out

- The default scope: `Scope.default_scope` and `reset_default_scope` are process-wide
  globals. In the model every graph owns its scope, and a module or hyperparameter
  created without a scope uses the graph's scope.
- The `scope` argument of each element: `Hyperparameter` and `Module` take one
  (darch/core.py:123-131, 281-289), and a module's ports are named in the module's scope
  (darch/core.py:302, 310). The model has one scope per graph, so every element of a graph
  is named in that scope, and elements of two scopes cannot be mixed in one graph.
- `__repr__`, `_get_base_name`, `get_io` and `get_hyperps` are not modelled. They are
  plain accessors or printing helpers. The base name is passed to `NewModule` and
  `NewHyperparameter` as a parameter.
- The `isinstance` asserts are not modelled: the Dafny types already make them hold.
- The hooks `_check_val`, `_update`, `_compile` and `_forward` are not modelled. They are
  abstract (`NotImplementedError`) in this file.
  - `_check_val` is modelled by the `accepted` parameter of `SetVal`.
  - `_update`, `_compile` and `_forward` are modelled as events in a ghost log.
  - `_forward` is modelled by the `hook` parameter of `Forward` (`Values.Hook`). The hook
    is a function of the module id and of the input and hyperparameter values the module
    reads at its turn. It returns the name/value list handed to `_set_output_values`.
    A hook cannot keep state between calls or change anything but its module's outputs.
    Reading an input or hyperparameter without a value is not an error inside the hook:
    that role is absent from what it reads.
- A missing `val` attribute is modelled as `None`. Python raises `AttributeError` when
  `_get_input_values`, `_get_hyperp_values` or the feeding loop of `forward` reads a
  value that was never assigned. The model gives `Failure(MissingValue)` there.
- The visitor functions `fn` of the traversals are not modelled as closures.
  - Their "stop here" answer is a per-module table.
  - Their side effects are done by the caller over the visited sequence, in visit order.
  - The visitor cannot change the graph while the walk runs.
- Graphs.Graph.RerouteAllConnectedInputs: requires the new output to differ from the old
  one. Rerouting an output onto itself only reorders its own list in place, and that case
  is not described.
- Graphs.Graph.RerouteAllSnapshot: requires the new output to differ from the old one,
  as above.
- Graphs.Graph.Forward: what the outputs hold at the end is stated only for a
  duplicate-free order, and only for modules that no module at or after their turn feeds.
  A module that runs twice, or whose inputs change after its turn, is only known to have
  propagated its outputs.
- Graphs.Graph.RunModules: a failing pass states which error ended it, but not at which
  turn, nor what the outputs then hold beyond the unchanged shape.
- ForwardScenarios.ChainForward: the chain's values are proved for a pass that succeeds;
  that this pass succeeds is not proved.
- Values are an arbitrary type parameter `V`. Nothing is modelled about their contents.

## Findings

| source | as written | input that shows it | evidently intended | confidence | as-written member | corrected member |
|---|---|---|---|---|---|---|
| darch/core.py:262-264 | `disconnect_all` iterates over `self.to_inputs` while each `disconnect` removes the current input from that same list, so every second input is skipped | an output connected to two inputs: after `disconnect_all` the second input is still connected | every input of the output is disconnected | high (proved on the model; not executed) | Graphs.Graph.DisconnectAll, FanOuts.SecondStaysConnected | Graphs.Graph.DisconnectAllSnapshot |
| darch/core.py:267-275 | `reroute_all_connected_inputs` iterates over the live `to_inputs` list while disconnecting from it, so only the inputs at even positions are rerouted | an output connected to two inputs: the second input stays on the old output | every input moves to `from_output` | high (proved on the model; not executed) | Graphs.Graph.RerouteAllConnectedInputs, FanOuts.SecondStaysConnected | Graphs.Graph.RerouteAllSnapshot |
| darch/core.py:443-453 | `traverse_backward` starts with an empty memo, so a starting module that also feeds another starting module is queued and visited again, and `fn` runs on it twice | modules `A -> B`, walking backward from the outputs of both: `A` is visited twice, and `get_unconnected_inputs` lists `A`'s free input twice | each module reached is visited once, as the docstring says | high (proved on the model; not executed) | WalkScenarios.BackwardRevisitsSeed, WalkScenarios.UnconnectedInputsTwice | Walks.TraverseBackwardOnce, WalkScenarios.BackwardOnceVisitsEach, Queries.GetUnconnectedInputsOnce |
| darch/core.py:469-479 | `traverse_forward` starts with an empty memo, so a starting module fed by another starting module is visited twice | modules `A -> B`, walking forward from the inputs of both: `B` is visited twice, and `get_unconnected_outputs` lists `B`'s free output twice | each module reached is visited once | high (proved on the model; not executed) | WalkScenarios.ForwardRevisitsSeed, WalkScenarios.UnconnectedOutputsTwice | Walks.TraverseForwardOnce, Queries.GetUnconnectedOutputsOnce |
