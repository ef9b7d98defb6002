# Verified models of the PowerOps extension and of kolla-ansible's core algorithms

This project models the parts of the repository that carry protocol, arithmetic or data-structure content, and proves
what they promise. Run `dafny verify dfyconfig.toml` to check all of it.

- **Power protocol.** `HostLock` is the Redis lease (SET NX PX and the two scripts) and the three lock actions;
  `PowerWorkflow` is the workbook's state machine with any number of executions, arbitrary task failures and passing
  time. `PowerMixed` says what the lease does where other executions switch hosts on again, `PowerReturn` what switches
  them on, `PowerProgress` when tasks can succeed. `PowerOperations` and `IronicFence` are the polling, draining, power
  and fencing operations over arbitrary traces of answers. `mistral/workbooks/power-ops.yaml` supplies the task edges.
- **Reconcilers.** `IronicNode` is the node reconciler as code over a mutable inventory and as a function of it,
  `IronicConvergence` what it guarantees, `IronicReport` that it reports what it did; `FleetConfig` adds the fleet
  validator and passes over a whole fleet, `FleetRules` the rules behind the checks; `MasakariSegment` is the failover
  segment reconciler with its own guarantees, `MasakariReport` its report.
- **Fernet rotation.** `FernetRotation` is the cron generator, the schedule of all hosts together, and what cron makes
  of the emitted fields.
- **Mergers.** `OrderedDict` is Python's dictionary. `IniDocument`, `IniSource`, `IniLines` and `IniRoundTrip` say what
  merging, reading and writing INI sources means; `MergeConfigs` is the parser with its shared, updated objects.
  `YamlTree` says what merging nested configurations means; `YamlObjects` and `MergeYaml` are the code with list objects
  extended in place, `YamlSharing`, `YamlShapes` and `YamlFolding` say when list objects in several places make a
  difference, to one merge and to a whole fold, and `YamlIndexing` what integer keys do to a list.
- **Containers.** `DockerWorker` is the life cycle of one container with every outcome of every pull, unit action and
  removal left open; `Dimensions` compares resource limits; `SystemdWorker` waits for units and budgets restarts.
- `Common`, `Arithmetic` and `Text` hold small shared facts.

Code that updates things in place is modelled as classes and loops, each method proved against functions of its inputs
and old state; the lemmas are about those functions, for all inputs, traces, stores and runs.

Where the code does less than its documentation suggests, the code is kept, a concrete failing input is given,
and the exact condition is proved:

- The weekly cron branch writes the minute of the hour into the hour field, so entries are wrong and hosts collide
  (`WeekScheduleFaithfulExactly`, `HostsCollideExactly`, `TwelveHoursThreeHostsCollide`).
- A written INI file reads back exactly when the orphan section leads and assigns something
  (`RoundTripExactly`, `LateOrphanMoves`).
- The Ironic preflight misses one situation with a port that has no owner
  (`AllOrNothingExactly`, `CheckModeFidelityExactly`, `UnownedPortExample`).
- The fleet validator compares names before trimming (`ValidatedFleetIsApartExactly`, `UntrimmedNamesSlipThrough`).
- The Masakari reconciler updates a segment before it finds duplicate hosts
  (`FailureKeepsStoreExactly`, `DuplicateHostsExample`).
- Resource limits without a unit are compared as texts (`ComparedAsNumberExactly`, `LeadingZeroDiffers`).
- A YAML list anchored in two places is extended in both
  (`InPlaceMergesValuesExactly`, `FoldsValuesExactly`, `SharedListGrowsTwice`).
- An integer key in a YAML mapping overwrites an item of a list without an error, and with extended lists the grouping
  of sources then matters (`YamlIndexing.FailsExactly`, `EveryItem`, `GroupingsAgreeItemByItem`,
  `GroupingAgreesFor`, `ItemIsLost`, `IndexingDoesNotAssociate`).
- Starting a container a second time is silent exactly when the wanted state is a running one, or a paused one that was
  there from the beginning (`StartTwice`, `ExitedIsStartedAgain`).

## Model

| member | source | states |
|---|---|---|
| FernetRotation.Generate | ansible/roles/keystone/files/fernet_rotate_cron_generator.py:39-94 | the crons of a host are the fields of its raw minutes, in order, for the branch its rotation period selects; no crons for a host beyond the count, and an error for an interval longer than a week |
| FernetRotation.SpanIsLeast | ansible/roles/keystone/files/fernet_rotate_cron_generator.py:59-92 | the branch taken is the least of hour, day and week that holds one round of all hosts, in minutes, where one does |
| FernetRotation.EveryHostRotatesExactly | ansible/roles/keystone/files/fernet_rotate_cron_generator.py:48-92 | every host gets at least one entry if and only if one round of all hosts fits a week |
| FernetRotation.DailyRoundsAreRun | ansible/roles/keystone/files/fernet_rotate_cron_generator.py:76-92 | when one round fits a day, cron starts each rotation of the schedule on exactly the one host it names, whatever the interval |
| FernetRotation.WeekCrons | ansible/roles/keystone/files/fernet_rotate_cron_generator.py:65-73 | the weekly loop emits one entry per minute that still leaves room for an interval in the week |
| FernetRotation.DayCrons | ansible/roles/keystone/files/fernet_rotate_cron_generator.py:76-83 | the same for a day |
| FernetRotation.HourCrons | ansible/roles/keystone/files/fernet_rotate_cron_generator.py:86-92 | the same for an hour |
| FernetRotation.RotationPartition | ansible/roles/keystone/files/fernet_rotate_cron_generator.py:45-94 | a minute belongs to host i exactly when it is a multiple r*m of the interval with r*(m+1) inside the span and m congruent to i, so every such multiple has exactly one host |
| FernetRotation.TimesFromIncrease | ansible/roles/keystone/files/fernet_rotate_cron_generator.py:66-73 | no host lists a minute twice; its minutes lie a whole period apart |
| FernetRotation.FiresExactly | ansible/roles/keystone/files/fernet_rotate_cron_generator.py:45-94 | repeated for ever, some host rotates exactly in the minutes that are multiples of the interval with room left in the span |
| FernetRotation.RotationGap | ansible/roles/keystone/files/fernet_rotate_cron_generator.py:48-56 | consecutive rotations of any hosts are at least one and strictly less than two intervals apart: never over-rotated |
| FernetRotation.HourAndMinuteBranchesAreFaithful | ansible/roles/keystone/files/fernet_rotate_cron_generator.py:76-92 | an hourly or daily entry matches exactly the minutes congruent to its time modulo the span |
| FernetRotation.WeekEntryFaithfulExactly | ansible/roles/keystone/files/fernet_rotate_cron_generator.py:65-73 | a weekly entry matches exactly its minute of the week if and only if minute and hour of that time agree |
| FernetRotation.WeekScheduleFaithfulExactly | ansible/roles/keystone/files/fernet_rotate_cron_generator.py:65-73 | all weekly entries of all hosts are faithful if and only if the interval passes a test on the interval alone |
| FernetRotation.CronRunsTheSchedule | ansible/roles/keystone/files/fernet_rotate_cron_generator.py:39-94 | in a safe schedule cron starts a rotation in a minute on exactly the one host the schedule names, and on none otherwise |
| FernetRotation.HostsCollideExactly | ansible/roles/keystone/files/fernet_rotate_cron_generator.py:65-73 | in the weekly branch two different hosts get the same entry if and only if some multiple of the interval is a whole number of hours and less than a day |
| FernetRotation.TwelveHoursThreeHostsCollide | ansible/roles/keystone/files/fernet_rotate_cron_generator.py:65-73 | with 720 minutes and three hosts, hosts 0 and 1 get the same entry |
| HostLock.Redis.SetNxPx | plugins/mistral_power_actions/src/openstack_power_actions/locks.py:30-35 | sets a key with expiry only where no live key is |
| HostLock.Redis.EvalRefresh | plugins/mistral_power_actions/src/openstack_power_actions/locks.py:4-9 | moves the deadline only for the owner of a live key |
| HostLock.Redis.EvalRelease | plugins/mistral_power_actions/src/openstack_power_actions/locks.py:11-16 | deletes only for the owner of a live key |
| HostLock.RedisHostLock.Create | plugins/mistral_power_actions/src/openstack_power_actions/locks.py:20-28 | fails exactly without a host, an owner or a positive time to live; otherwise a lock with that time in milliseconds |
| HostLock.RedisHostLock.AcquireLock | plugins/mistral_power_actions/src/openstack_power_actions/locks.py:30-35 | one atomic acquire step of the protocol |
| HostLock.RedisHostLock.RefreshLock | plugins/mistral_power_actions/src/openstack_power_actions/locks.py:37-42 | one atomic refresh step |
| HostLock.RedisHostLock.ReleaseLock | plugins/mistral_power_actions/src/openstack_power_actions/locks.py:44-45 | one atomic release step |
| HostLock.AcquireHostLockAction | plugins/mistral_power_actions/src/openstack_power_actions/actions.py:75-89 | fails without touching Redis when badly called or refused, otherwise takes the lease for the workflow's execution |
| HostLock.RefreshHostLockAction | plugins/mistral_power_actions/src/openstack_power_actions/actions.py:92-104 | the same for refreshing |
| HostLock.ReleaseHostLockAction | plugins/mistral_power_actions/src/openstack_power_actions/actions.py:107-119 | the same for releasing |
| HostLock.WindowsInvariant | plugins/mistral_power_actions/src/openstack_power_actions/locks.py:4-45 | in every run of any owners on any hosts with clock ticks in between, only the latest window of the stored owner is open and all windows on a host are apart |
| HostLock.LeaseMutualExclusion | plugins/mistral_power_actions/src/openstack_power_actions/locks.py:4-45 | the windows of two owners on one host never overlap, in any run |
| HostLock.InsideWindowMeansHolding | plugins/mistral_power_actions/src/openstack_power_actions/locks.py:30-45 | whoever is inside its window holds the key in Redis with that very deadline |
| HostLock.OthersCannotTouchTheLease | plugins/mistral_power_actions/src/openstack_power_actions/locks.py:4-16 | no command of one owner changes another owner's live lease |
| HostLock.LeaseSurvivesOthers | plugins/mistral_power_actions/src/openstack_power_actions/locks.py:4-45 | until its deadline a lease survives any sequence of commands of other owners, with time passing |
| HostLock.FreeFromTheDeadline | plugins/mistral_power_actions/src/openstack_power_actions/locks.py:4-45 | left alone, a lease is refreshed and released strictly before its deadline only, and acquired by any owner from the deadline on |
| HostLock.OwnersAreWorkflows | plugins/mistral_power_actions/src/openstack_power_actions/actions.py:56-66 | contexts of one workflow execution have one owner, contexts of different ones have different owners |
| HostLock.ActionAnswers | plugins/mistral_power_actions/src/openstack_power_actions/actions.py:56-119 | an action needs an owner, then a host and a positive time to live, and then succeeds if and only if the key is free, or held by that owner |
| HostLock.InvalidExactly | plugins/mistral_power_actions/src/openstack_power_actions/locks.py:20-28 | with an owner, an action is refused as invalid if and only if there is no host or no positive time to live |
| HostLock.LaterTasksKeepTheLease | plugins/mistral_power_actions/src/openstack_power_actions/actions.py:75-119 | what one task of a workflow execution has acquired, a later task refreshes and releases within the time to live, whatever other executions do in between |
| PowerWorkflow.LegalLogsHaveShape | mistral/workbooks/power-ops.yaml:6-199 | every task log that the edges allow is a prefix of the success path, or one failure followed by the fail-safe tail in order |
| PowerWorkflow.PowerOffGate | tests/powerops/test_mistral_workbook.py:26-49 | a power-off request comes only directly after a successful drain, lock refresh and safe-host check in that order, and everything before succeeded |
| PowerWorkflow.ReturnGate | mistral/workbooks/power-ops.yaml:64-199 | Nova is enabled only directly after a successful verification of the returned host |
| PowerWorkflow.FailSafeBeforeRelease | tests/powerops/test_mistral_workbook.py:26-57 | the error path releases the lock only after fail_safe_host and the audit event, following the first failure |
| PowerWorkflow.FailureLeadsToFailSafe | mistral/workbooks/power-ops.yaml:6-199 | after a failed task under the lock the next task is fail_safe_host and success is out of reach |
| PowerWorkflow.ReachedInvariant | mistral/workbooks/power-ops.yaml:6-199 | what every interleaving of executions, failures and time keeps: legal logs, leases backed by Redis, disjoint critical sections, parked hosts |
| PowerWorkflow.PowerOffUnderLease | mistral/workbooks/power-ops.yaml:6-62 | a power-off request within the time to live of its refresh happens while that execution alone holds the lease |
| PowerWorkflow.PowerOffSectionsDisjoint | mistral/workbooks/power-ops.yaml:6-145 | of two timely power-off requests on one host, one came before the other execution refreshed |
| PowerWorkflow.PowerOffLeavesHostParked | mistral/workbooks/power-ops.yaml:6-62 | on a host that only planned power-offs touch, Nova is disabled and maintenance on at every power-off request and after a completed fail-safe |
| PowerMixed.ReachedHoldersParked | mistral/workbooks/power-ops.yaml:6-199 | in every run of any mix of the three workflows: whoever holds the lease of a host and has not switched it on finds off what it has switched off, as long as everyone who switched the host on did so within its own lease |
| PowerMixed.PowerOffFindsHostParked | mistral/workbooks/power-ops.yaml:6-199 | under that condition a power-off request within the time to live of its refresh finds Nova disabled and maintenance on, whatever reboots and returns happened before |
| PowerReturn.LastCallDecides | mistral/workbooks/power-ops.yaml:6-199 | in every run of any mix of workflows, Nova is enabled for a host if and only if the last call about it was carried out by an enabling task, and maintenance is on if and only if the last call about that was a setting one; before any call, as it was in the beginning |
| PowerReturn.SucceededDidEverything | mistral/workbooks/power-ops.yaml:6-199 | an execution that succeeds has carried out all tasks of its workflow in the order of the workbook, and none of them failed |
| PowerReturn.ReturnedHostIsInService | mistral/workbooks/power-ops.yaml:64-199 | a reboot or return that succeeds on a host no other execution is about leaves Nova enabled and maintenance off |
| PowerProgress.FinishesExactly | mistral/workbooks/power-ops.yaml:6-199 | a task can always fail, and can succeed if and only if Redis grants what it asks |
| PowerProgress.StartsExactly | mistral/workbooks/power-ops.yaml:6-199 | an execution starts under any new id, with nothing done |
| PowerProgress.LockTasksDo | mistral/workbooks/power-ops.yaml:6-199 | acquiring and refreshing leave the execution with the lease for the time to live from then on, both ways of releasing leave nobody with it, no other task touches it |
| PowerProgress.FailureAtOnce | mistral/workbooks/power-ops.yaml:6-199 | a task that fails before its first call leaves the lease, Nova and maintenance as they were |
| PowerProgress.FailSafeHalfWay | plugins/mistral_power_actions/src/openstack_power_actions/operations.py:276-283 | a fail-safe that fails between its calls has disabled Nova and left maintenance as it was |
| PowerProgress.UndisturbedSucceeds | mistral/workbooks/power-ops.yaml:6-199 | left alone, and with every call succeeding, each of the three workflows succeeds |
| PowerOperations.PollingBudget | plugins/mistral_power_actions/src/openstack_power_actions/operations.py:138-142 | using up the attempts sleeps at least the timeout and less than an interval longer |
| PowerOperations.AttemptsAreDefined | plugins/mistral_power_actions/src/openstack_power_actions/operations.py:138-142 | there is a number of attempts if and only if timeout and interval are positive |
| PowerOperations.PollFollowsTheTrace | plugins/mistral_power_actions/src/openstack_power_actions/operations.py:220-247 | each outcome of a wait, from any point of any trace, is what the readings say |
| PowerOperations.ConfirmedExactly | plugins/mistral_power_actions/src/openstack_power_actions/operations.py:220-247 | success at reading k if and only if k is the first end of n consecutive wanted readings and no reading up to k aborts |
| PowerOperations.NotConfirmedExactly | plugins/mistral_power_actions/src/openstack_power_actions/operations.py:220-247 | errors happen exactly at the first aborting reading, timeouts exactly when nothing else happens in time |
| PowerOperations.SteadyNodeIsConfirmed | plugins/mistral_power_actions/src/openstack_power_actions/operations.py:220-247 | a node that stays in the wanted state without errors is confirmed if n readings are left |
| PowerOperations.DrainedExactly | plugins/mistral_power_actions/src/openstack_power_actions/operations.py:144-179 | a drain succeeds at listing k if and only if k is the first to pass the power-off gate and none before shows a server in error |
| PowerOperations.OnHostExactly | plugins/mistral_power_actions/src/openstack_power_actions/operations.py:118-126 | the servers on a host are exactly those listed with it as their hypervisor |
| PowerOperations.DrainEndsExactly | plugins/mistral_power_actions/src/openstack_power_actions/operations.py:144-179 | a drain succeeds at the first listing without a server that occupies the host, fails with an error at the first one before that with a server in error, and times out otherwise |
| PowerOperations.RequestPower | plugins/mistral_power_actions/src/openstack_power_actions/operations.py:190-218 | sends at most one command, and exactly when neither state nor pending target is the wanted one; refuses a conflicting pending target |
| PowerOperations.RequestsAndWaitsMatch | plugins/mistral_power_actions/src/openstack_power_actions/operations.py:197-234 | a request sends the target, or its soft variant where one is asked for and exists; the pending targets that the wait for a target tolerates are exactly what requests for it send |
| PowerOperations.RefusedExactly | plugins/mistral_power_actions/src/openstack_power_actions/operations.py:190-218 | a request is refused if and only if the wait would give up on the same reading or the other variant of the request is pending |
| PowerOperations.PendingRequestIsAwaited | plugins/mistral_power_actions/src/openstack_power_actions/operations.py:201-236 | what was sent and is pending neither disturbs the wait nor is sent a second time |
| PowerOperations.RequestThenWait | plugins/mistral_power_actions/src/openstack_power_actions/operations.py:190-247 | a node that shows what was sent as pending, or nothing, until it has the wanted state and keeps it, is confirmed in time |
| PowerOperations.NamedNodesExactly | plugins/mistral_power_actions/src/openstack_power_actions/operations.py:57-63 | the nodes that a request looks at are exactly those of the name |
| PowerOperations.WaitPower | plugins/mistral_power_actions/src/openstack_power_actions/operations.py:220-247 | the polling loop, its errors, and its exact cost in reads and seconds |
| PowerOperations.SendDrainCommands | plugins/mistral_power_actions/src/openstack_power_actions/operations.py:144-179 | one command of the policy's kind per listed server |
| PowerOperations.CommandsPerServer | plugins/mistral_power_actions/src/openstack_power_actions/operations.py:144-175 | migrating asks every listed server to leave and stopping asks every one to stop, in order; no other policy asks anything |
| PowerOperations.AwaitDrained | plugins/mistral_power_actions/src/openstack_power_actions/operations.py:144-179 | the polling loop of a drain follows the listings, with its exact cost in listings and seconds |
| PowerOperations.DrainHost | plugins/mistral_power_actions/src/openstack_power_actions/operations.py:144-179 | one command per server of the first listing for a migrating or stopping policy, none otherwise; success means the last listing passes the gate; exact cost in listings and seconds |
| PowerOperations.AssertHostEmpty | plugins/mistral_power_actions/src/openstack_power_actions/operations.py:181-188 | passes exactly when no server is left or all are shut off where allowed |
| PowerOperations.DrainThenAssert | plugins/mistral_power_actions/src/openstack_power_actions/operations.py:144-188 | after a successful drain the gate passes on the listing the drain ended with |
| PowerOperations.SetNovaService | plugins/mistral_power_actions/src/openstack_power_actions/operations.py:98-107 | changes exactly the one service of the host, with a call only where it is not so already, or nothing |
| PowerOperations.SetMasakariMaintenance | plugins/mistral_power_actions/src/openstack_power_actions/operations.py:109-116 | changes exactly the one Masakari record of the host, with a call only where it is not so already, or nothing |
| PowerOperations.FailSafeHost | plugins/mistral_power_actions/src/openstack_power_actions/operations.py:276-283 | success leaves Nova disabled and maintenance on for the host and all else alone; Nova is disabled even where Masakari fails |
| IronicFence.AwaitOff | plugins/masakari_ironic_fence/src/masakari_ironic_fence/task.py:63-97 | the confirmation loop, its errors and its exact cost |
| IronicFence.Execute | plugins/masakari_ironic_fence/src/masakari_ironic_fence/task.py:51-97 | at most one command, only the hard power-off, then confirmation by stable readings |
| IronicFence.FenceDecidesLikeRequest | plugins/masakari_ironic_fence/src/masakari_ironic_fence/task.py:54-61 | the request phase sends, skips and refuses exactly as the planned hard power-off |
| IronicFence.FencingRefinesPlannedWait | plugins/masakari_ironic_fence/src/masakari_ironic_fence/task.py:63-97 | fencing confirms at reading k if and only if the planned wait does and no reading up to k shows a soft power-off of a host still up |
| IronicFence.FencingEndsExactly | plugins/masakari_ironic_fence/src/masakari_ironic_fence/task.py:63-97 | fencing succeeds at the first complete window, fails with the error of the first reading that aborts before, and times out otherwise |
| IronicFence.SoftPowerOffDefeatsFencing | plugins/masakari_ironic_fence/src/masakari_ironic_fence/task.py:75-83 | a trace on which the two really differ |
| IronicNode.PreflightPortOwnership | ansible/roles/powerops/library/powerops_ironic_node.py:204-223 | finds the first desired address that is ambiguous or foreign |
| IronicNode.ReconcilePorts | ansible/roles/powerops/library/powerops_ironic_node.py:152-201 | creates and updates ports decided from its own snapshot while the store changes; counts changes and reports extras |
| IronicNode.ConfigureNode | ansible/roles/powerops/library/powerops_ironic_node.py:226-310 | field by field updates and the move to manageable end in the configured node |
| IronicNode.ReconcileExistingNode | ansible/roles/powerops/library/powerops_ironic_node.py:226-310 | the reconciliation of a known node, state check first |
| IronicNode.ReconcileNode | ansible/roles/powerops/library/powerops_ironic_node.py:226-323 | the whole run: search, preflight, create or adopt, configure, ports |
| IronicConvergence.WriteSettles | ansible/roles/powerops/library/powerops_ironic_node.py:152-201 | one port write settles its address, keeps every port and leaves other addresses alone |
| IronicConvergence.PortsConverge | ansible/roles/powerops/library/powerops_ironic_node.py:152-201 | a port run that passed the preflight cannot raise and settles all desired addresses |
| IronicConvergence.PortRunIsForeseen | ansible/roles/powerops/library/powerops_ironic_node.py:152-201 | a port run has the same result in check mode and for real, from any store |
| IronicConvergence.AllOrNothingExactly | ansible/roles/powerops/library/powerops_ironic_node.py:204-310 | a failing run leaves a trace if and only if an address of a new node is held by a port without owner |
| IronicConvergence.CreationSucceedsExactly | ansible/roles/powerops/library/powerops_ironic_node.py:226-310 | creating a node after the preflight succeeds, completely, except in that situation |
| IronicConvergence.SucceedsExactlyWhenReady | ansible/roles/powerops/library/powerops_ironic_node.py:204-310 | a run succeeds if and only if there is one node of the name in an allowed state that owns the taken addresses, or none and no address is taken |
| IronicConvergence.ReconcileEstablishes | ansible/roles/powerops/library/powerops_ironic_node.py:226-310 | success leaves one manageable node as specified, one owned port per address, and everything that was there |
| IronicConvergence.ConvergedIsSilent | ansible/roles/powerops/library/powerops_ironic_node.py:226-310 | on a converged inventory a run writes nothing and reports no change |
| IronicConvergence.ReconcileKeepsOthers | ansible/roles/powerops/library/powerops_ironic_node.py:226-310 | reconciling one node does not disturb another converged one |
| IronicConvergence.CheckModeWritesNothing | ansible/roles/powerops/library/powerops_ironic_node.py:241-310 | check mode writes nothing |
| IronicConvergence.CheckModeFidelityExactly | ansible/roles/powerops/library/powerops_ironic_node.py:241-310 | check mode foretells error, change flag, count and extras if and only if no unowned port is claimed |
| IronicConvergence.UnownedPortExample | ansible/roles/powerops/library/powerops_ironic_node.py:204-310 | for every specification with a port, an inventory where the preflight passes and the run fails half-way |
| IronicReport.PortRunCounts | ansible/roles/powerops/library/powerops_ironic_node.py:152-201 | a port run counts exactly the desired ports for which a search finds something else afterwards, and leaves the store as it was if and only if it counts none |
| IronicReport.ExtrasExactly | ansible/roles/powerops/library/powerops_ironic_node.py:194-200 | extra ports are exactly the node's ports at addresses that are not desired, as often as there are such |
| IronicReport.RunIsReported | ansible/roles/powerops/library/powerops_ironic_node.py:226-310 | a successful run reports a change if and only if the inventory changed, counts the ports it created or updated, and names the node, its state and its extra ports as the inventory has them afterwards |
| IronicReport.CheckIsReported | ansible/roles/powerops/library/powerops_ironic_node.py:241-310 | in check mode the report describes the inventory as it is |
| IronicReport.CreatedAsSpecified | ansible/roles/powerops/library/powerops_ironic_node.py:255-261 | a node is created as specified: only its state remains to be changed |
| FleetConfig.NormalizeSpec | ansible/roles/powerops/library/powerops_ironic_node.py:93-140 | the normalized specification, or the first error in the source's order |
| FleetConfig.ValidateNode | tools/powerops_cli.py:122-190 | the errors of one node, given the names, addresses and systems seen before |
| FleetConfig.ValidateConfig | tools/powerops_cli.py:122-190 | all errors of a configuration, in order |
| FleetRules.MacIsSixPairs | ansible/roles/powerops/library/powerops_ironic_node.py:49 | the address pattern: six pairs of hexadecimal digits with colons between them, or that and one line feed |
| FleetRules.AcceptedExactly | ansible/roles/powerops/library/powerops_ironic_node.py:93-140 | a node is accepted if and only if every rule holds, each stated by itself; then names are trimmed and addresses are in lower case |
| FleetRules.ErrorIsTrue | ansible/roles/powerops/library/powerops_ironic_node.py:93-140 | the error for a rejected node says what is wrong with it |
| FleetRules.ReportsExactly | tools/powerops_cli.py:122-190 | the validator reports an error if and only if its rule is broken, with duplicates stated pairwise over the whole fleet |
| FleetRules.NamelessNodesClash | tools/powerops_cli.py:146-149 | two nodes without a name count as having the same one |
| Text.StripTakesBlanks | ansible/roles/powerops/library/powerops_ironic_node.py:97-99 | trimming takes blanks off both ends and leaves none there |
| Text.BlanksOfAscii | ansible/roles/powerops/library/powerops_ironic_node.py:97-99 | which ASCII characters count as blanks |
| Text.CaseOfLetters | ansible/roles/powerops/library/powerops_ironic_node.py:99 | the capital letters have the small ones in order, their neighbours have none |
| Text.CaseCharByChar | ansible/roles/powerops/library/powerops_ironic_node.py:99 | changing case works character by character and keeps the length |
| FleetConfig.ValidatedNodesNormalizeExactly | tools/powerops_cli.py:122-190 | in a silently validated fleet a node normalizes if and only if its name is not blank |
| FleetConfig.ValidatedFleetIsApartExactly | tools/powerops_cli.py:122-190 | its specifications share no name or address if and only if trimmed names differ |
| FleetConfig.TrimmedNamesAreApart | tools/powerops_cli.py:122-190 | trimmed non-blank names suffice |
| FleetConfig.UntrimmedNamesSlipThrough | tools/powerops_cli.py:122-190 | two names that differ in a trailing space pass the validator |
| FleetConfig.PassConverges | ansible/roles/powerops/library/powerops_ironic_node.py:313-323 | a pass establishes all its specifications and breaks none that held |
| FleetConfig.LaterPassIsSilent | ansible/roles/powerops/library/powerops_ironic_node.py:313-323 | later passes in any order and number write and report nothing |
| FleetConfig.PassSucceedsExactly | ansible/roles/powerops/library/powerops_ironic_node.py:313-323 | for specifications that share nothing a pass raises nothing if and only if none of them alone would from the store as it is |
| FleetConfig.PassInAnyOrder | ansible/roles/powerops/library/powerops_ironic_node.py:313-323 | so a pass in any other order raises nothing either |
| FleetConfig.FleetConverges | tools/powerops_cli.py:122-190 | one raise-free pass over a validated fleet whose trimmed names are non-blank and different makes all nodes hold at once, and further passes are silent |
| MasakariSegment.NormalizeSegmentSpec | ansible/roles/powerops/library/powerops_masakari_segment.py:54-109 | the normalized segment, or the first error in the source's order |
| MasakariSegment.AcceptedExactly | ansible/roles/powerops/library/powerops_masakari_segment.py:54-109 | accepted if and only if all fields are well-formed and trimmed host names are present, different and at least one |
| MasakariSegment.CheckDuplicates | ansible/roles/powerops/library/powerops_masakari_segment.py:159-167 | finds the first existing host whose name came before |
| MasakariSegment.ReconcileHosts | ansible/roles/powerops/library/powerops_masakari_segment.py:169-198 | creates missing hosts and updates differing ones from one listing; counts both |
| MasakariSegment.ReconcileKnown | ansible/roles/powerops/library/powerops_masakari_segment.py:150-207 | the run once the segment is known |
| MasakariSegment.ReconcileSegment | ansible/roles/powerops/library/powerops_masakari_segment.py:112-207 | the whole run |
| MasakariSegment.WriteHostsDone | ansible/roles/powerops/library/powerops_masakari_segment.py:169-198 | after the writes every wanted host is as wanted under its old id, and every other name as before |
| MasakariSegment.ReconcileEstablishes | ansible/roles/powerops/library/powerops_masakari_segment.py:112-207 | success leaves exactly one segment as wanted, extra hosts kept and reported, other segments untouched |
| MasakariSegment.SecondRunChangesNothing | ansible/roles/powerops/library/powerops_masakari_segment.py:112-207 | a second run writes nothing, reports no change and the same extra hosts |
| MasakariSegment.CheckModeForesees | ansible/roles/powerops/library/powerops_masakari_segment.py:130-207 | check mode writes nothing, raises exactly as the real run, and foretells change flag, count and extras |
| MasakariSegment.FailureKeepsStoreExactly | ansible/roles/powerops/library/powerops_masakari_segment.py:150-167 | a failing run has written something if and only if the segment needed an update and its hosts are ambiguous |
| MasakariSegment.DuplicateHostsExample | ansible/roles/powerops/library/powerops_masakari_segment.py:150-167 | for every specification with a host, such a segment |
| MasakariReport.SucceedsExactlyWhenReady | ansible/roles/powerops/library/powerops_masakari_segment.py:112-167 | a run succeeds, in check mode and for real, if and only if there is no segment of the name, or one for compute hosts without two hosts of one name; ambiguity and service type have their own errors |
| MasakariReport.RunIsReported | ansible/roles/powerops/library/powerops_masakari_segment.py:112-207 | a successful run reports a change if and only if something changed, counts exactly the hosts it created or updated, and names the segment |
| OrderedDict.SameKeysSameValues | ansible/action_plugins/merge_configs.py:75-77 | a dictionary is its keys in insertion order and what they map to |
| IniDocument.MergeLookup | ansible/action_plugins/merge_configs.py:96-101 | the later of two documents that assigns a key supplies all its values |
| IniDocument.MergeAssociates | ansible/action_plugins/merge_configs.py:96-101 | grouping sources differently gives the same document, order included |
| IniDocument.MergeAgain | ansible/action_plugins/merge_configs.py:96-101 | reading the last source again changes nothing |
| IniDocument.LastSourceWins | ansible/action_plugins/merge_configs.py:181-182 | over any list of sources the last one that assigns a key supplies exactly its list of values |
| IniDocument.NoSourceNoValue | ansible/action_plugins/merge_configs.py:181-182 | what no source assigns is not there |
| IniDocument.OrderOfFirstAppearance | ansible/action_plugins/merge_configs.py:96-101 | sections, and keys within each, stand in the order of their first appearance in any source |
| IniSource.LookupIsAssigned | ansible/action_plugins/merge_configs.py:80-109 | a key read from a source holds exactly the assignments made to it in that section, in order, across re-opened sections |
| IniSource.RunTracks | ansible/action_plugins/merge_configs.py:80-109 | reading tracks the open section, keeps sections in order of appearance and never yields an unreadable document |
| IniRoundTrip.SourcesAreReadable | ansible/action_plugins/merge_configs.py:91-94 | every source that is not rejected gives a document with non-empty keys, value lists and continuations |
| IniRoundTrip.ReadContinuations | ansible/action_plugins/merge_configs.py:123-132 | continuation lines have at least one leading space and rejoin their value |
| IniRoundTrip.WrittenEvents | ansible/action_plugins/merge_configs.py:111-142 | written lines are never rejected and stand for exactly the document's assignments |
| IniRoundTrip.Replay | ansible/action_plugins/merge_configs.py:80-142 | replaying those assignments rebuilds the document |
| IniRoundTrip.RoundTripExactly | ansible/action_plugins/merge_configs.py:80-142 | reading back what was written gives the document, with or without padding, if and only if the orphan section leads and assigns something, where there is one |
| IniRoundTrip.MergedSourcesReadBack | ansible/action_plugins/merge_configs.py:168-187 | the written merge of any list of sources reads back if and only if the orphan section, if mentioned, is mentioned first and some source assigns a key there |
| IniRoundTrip.LateOrphanMoves | ansible/action_plugins/merge_configs.py:138-142 | orphan assignments after another section end up in that section |
| IniLines.RejectedExactly | ansible/action_plugins/merge_configs.py:91-94 | a source is rejected if and only if some line is malformed, assigns to no key, or continues nothing |
| IniLines.HoldingBackIsHarmless | ansible/action_plugins/merge_configs.py:80-109 | the reader, which holds assignments back until they are complete, hands on the same events as one that lets each line take effect at once |
| IniLines.SourceIsItsEvents | ansible/action_plugins/merge_configs.py:80-109 | so a source without a bad line is the document of these events |
| IniLines.ValuesAreAligned | ansible/action_plugins/merge_configs.py:116-132 | the first text of a value follows the equals sign, all others stand below it, for either padding |
| IniLines.SectionsAreSeparated | ansible/action_plugins/merge_configs.py:138-142 | every section is followed by one blank line and there is no other |
| MergeConfigs.OverrideConfigParser.NewSection | ansible/action_plugins/merge_configs.py:103-109 | opens a section, replacing the dictionary of one still empty; the merged result is untouched |
| MergeConfigs.OverrideConfigParser.Assignment | ansible/action_plugins/merge_configs.py:80-89 | appends to the current section's list object; the merged result, which holds other lists, is untouched |
| MergeConfigs.OverrideConfigParser.StoreKeys | ansible/action_plugins/merge_configs.py:100-101 | the result takes over the list objects of one section |
| MergeConfigs.OverrideConfigParser.MergeCurrent | ansible/action_plugins/merge_configs.py:96-101 | the merge loops compute the merge of the two documents although both then share lists |
| MergeConfigs.OverrideConfigParser.Parse | ansible/action_plugins/merge_configs.py:91-101 | one more source is merged into the result, or rejected with the result as it was |
| MergeConfigs.OverrideConfigParser.Write | ansible/action_plugins/merge_configs.py:111-142 | the nested loops write the lines of the document |
| MergeConfigs.MergeSources | ansible/action_plugins/merge_configs.py:168-189 | the action writes the merge of all sources, or fails when one is rejected |
| YamlTree.KeyByKey | ansible/action_plugins/merge_yaml.py:171-191 | every key of a merge is decided by itself |
| YamlTree.FailsAtAKey | ansible/action_plugins/merge_yaml.py:171-191 | a merge fails if and only if some key fails |
| YamlTree.EveryPath | ansible/action_plugins/merge_yaml.py:171-191 | the result at every path: as before where the update says nothing, what the update makes of it where it says something, nothing below its leaves |
| YamlTree.FailsExactlyOnClash | ansible/action_plugins/merge_yaml.py:174-187 | for text keys, a merge raises if and only if somewhere a non-empty mapping meets a non-mapping or, extending lists, a scalar meets a list |
| YamlTree.ErrorIsExplained | ansible/action_plugins/merge_yaml.py:174-187 | the error names the key of a clash, and whether a mapping or a list was expected there |
| YamlTree.UpdateOrder | ansible/action_plugins/merge_yaml.py:174-191 | keys stand in the order of first appearance |
| YamlTree.UpdateIdempotent | ansible/action_plugins/merge_yaml.py:171-191 | without extending lists, merging once more changes nothing |
| YamlTree.UpdateAssociates | ansible/action_plugins/merge_yaml.py:128-130 | both groupings of three sources agree whenever both succeed, extending lists or not |
| YamlTree.LastSourceWins | ansible/action_plugins/merge_yaml.py:128-130 | a leaf that later sources do not touch stands as its source has it |
| YamlTree.ListsAreConserved | ansible/action_plugins/merge_yaml.py:178-188 | extending lists, the list at a path is the in-order concatenation of what the sources supply there |
| YamlIndexing.UpdateList | ansible/action_plugins/merge_yaml.py:171-191 | the loop over an update where the configuration is a list: assignments into it in place, and the error at which it stops |
| YamlIndexing.FailsExactly | ansible/action_plugins/merge_yaml.py:173-190 | a mapping over a list raises if and only if some key is not an integer in range, or has a mapping for a value, or, extending lists, would extend with something that is no list; all read off the list and the update before the merge |
| YamlIndexing.FailsAtTheFirst | ansible/action_plugins/merge_yaml.py:173-190 | the error is that of the first entry that fails, and the entries before it have been assigned |
| YamlIndexing.PositionExactly | ansible/action_plugins/merge_yaml.py:189-190 | an index is a position, or falls short of one by the length of the list |
| YamlIndexing.EveryItem | ansible/action_plugins/merge_yaml.py:178-190 | otherwise, in both modes, every item is what the assignments to its position make of it one after the other: replaced, or extended where the integer is among the items last put and a list stands there |
| YamlIndexing.ItemsAreReplaced | ansible/action_plugins/merge_yaml.py:189-190 | otherwise, and not extending lists, every item is the last one assigned to its position, or as it was |
| YamlIndexing.TextKeysFail | ansible/action_plugins/merge_yaml.py:174-190 | text keys fail at once with the list as it was |
| YamlIndexing.ItemIsLost | ansible/action_plugins/merge_yaml.py:178-190 | an item that an index names is lost without an error, in both modes |
| YamlIndexing.GroupingsAgreeItemByItem | ansible/action_plugins/merge_yaml.py:128-130 | extending a list with another and then indexing, or indexing the extension first: for any lists and any update on which both succeed, the results agree if and only if no item before the extension is touched and every item of the extension becomes the same |
| YamlIndexing.GroupingAgreesFor | ansible/action_plugins/merge_yaml.py:128-130 | for given lists without lists in them and one index in range, both groupings agree if and only if the index counts from the end, or nothing stands before the extension, or the item is there already at both positions |
| YamlIndexing.GroupingAgreesExactly | ansible/action_plugins/merge_yaml.py:128-130 | extending a list and assigning an item commute for all items if and only if the index counts from the end or nothing stands before the extension |
| YamlIndexing.IndexingDoesNotAssociate | ansible/action_plugins/merge_yaml.py:128-130 | with an integer key two groupings of three sources both succeed and differ |
| YamlObjects.SharingIsHarmlessByDefault | ansible/action_plugins/merge_yaml.py:171-191 | without extending lists, updating in place is merging values and changes no list, whatever is shared |
| YamlSharing.ViewsAgreeExactly | ansible/action_plugins/merge_yaml.py:171-191 | extending lists, the result stands for the merged values if and only if every list that still stands holds its items and those the update has for its place |
| YamlSharing.MergeAppends | ansible/action_plugins/merge_yaml.py:178-188 | what every list object holds after a merge: what it held, and everything appended through any of its places, in order |
| YamlSharing.InPlaceMergesValuesExactly | ansible/action_plugins/merge_yaml.py:171-191 | extending lists, updating in place fails as merging values does, and gives the merged values if and only if no list object that keeps standing at two places gets items at one of them |
| YamlSharing.UnsharedKept | ansible/action_plugins/merge_yaml.py:171-191 | merging configurations that share nothing gives one that shares nothing |
| YamlFolding.Loaded | ansible/action_plugins/merge_yaml.py:89-106 | loading a source makes new list objects, keeps the sharing inside the source, and disturbs nothing |
| YamlFolding.FoldByDefault | ansible/action_plugins/merge_yaml.py:122-130 | without extending lists, folding any sources in place is folding their values, with the same errors |
| YamlFolding.StepMergesValuesExactly | ansible/action_plugins/merge_yaml.py:128-130 | extending lists, the exact condition for one more source |
| YamlFolding.FoldExtending | ansible/action_plugins/merge_yaml.py:122-130 | extending lists, folding in place is folding values if no source anchors a list in two places |
| YamlFolding.FoldsValuesExactly | ansible/action_plugins/merge_yaml.py:122-130 | extending lists, folding any sources in place fails as folding their values does, and gives the folded values if and only if no list object still stands at a place where it once got items through another place |
| YamlFolding.EveryListHolds | ansible/action_plugins/merge_yaml.py:178-190 | over any sources, a list object holds at each of its places exactly what the values have there, and strictly more exactly if it got items through another place |
| YamlShapes.ViewsEqualExactly | ansible/action_plugins/merge_yaml.py:171-191 | configurations that agree up to what lists hold are equal if and only if every list object holds what the values have at each of its places |
| YamlShapes.ShapeMerges | ansible/action_plugins/merge_yaml.py:171-191 | whether a merge fails, and where it leaves mappings, lists and scalars, is up to where they stood and not to what lists hold |
| MergeYaml.Merger.Load | ansible/action_plugins/merge_yaml.py:89-106 | what is loaded stands for the source, shares lists as the source does, has no list in common with anything loaded before, and leaves earlier lists as they were |
| MergeYaml.Merger.UpdateNestedConf | ansible/action_plugins/merge_yaml.py:171-191 | the recursive loop with in-place extension |
| MergeYaml.Merger.Run | ansible/action_plugins/merge_yaml.py:122-130 | the loop over any sources computes their fold over objects, fails as folding values does, and gives the folded values if and only if lists are not extended or nothing strayed remains |
| MergeYaml.SharedListGrowsTwice | ansible/action_plugins/merge_yaml.py:188-190 | two sources, the first with a list anchored in two places, for which the result is not the merge of their values |
| DockerWorker.Worker.PullImage | ansible/module_utils/kolla_docker_worker.py:197-231 | a pull ends the run untouched or leaves some image, and overwrites the change flag with whether the only image of the given name changed |
| DockerWorker.Worker.StopContainer | ansible/module_utils/kolla_docker_worker.py:426-442 | interrupts only a container that has not exited, by systemd if and only if it has a unit file; fails only for a missing one that may not be missing |
| DockerWorker.Worker.RemoveContainer | ansible/module_utils/kolla_docker_worker.py:233-249 | removes unit file and container; fails only if the container is still there |
| DockerWorker.Worker.CreateContainer | ansible/module_utils/kolla_docker_worker.py:342-350 | volumes, a fresh container from the parameters and the image, and the unit file |
| DockerWorker.Worker.CreateUnitFile | ansible/module_utils/kolla_systemd_worker.py:155-186 | the file ends with the wanted content and is written exactly when it differs |
| DockerWorker.Worker.RemoveUnitFile | ansible/module_utils/kolla_systemd_worker.py:188-195 | the file is gone, and removed exactly when it was there |
| DockerWorker.Worker.ClearDiffering | ansible/module_utils/kolla_docker_worker.py:380-384 | only a differing container is stopped and removed, and always, unless its removal fails |
| DockerWorker.Worker.BringUp | ansible/module_utils/kolla_docker_worker.py:390-400 | only a container that is down is started |
| DockerWorker.Worker.StartContainer | ansible/module_utils/kolla_docker_worker.py:376-424 | a failed pull changes nothing; every interruption happens with the image at hand; detached success ends with an up container that matches; a matching up container is left alone entirely; exactly a differing or missing one is replaced |
| DockerWorker.Worker.Recreate | ansible/module_utils/kolla_docker_worker.py:364-372 | the image is pulled before the container is stopped |
| DockerWorker.Worker.RecreateOrRestartContainer | ansible/module_utils/kolla_docker_worker.py:352-374 | replaces, restarts or leaves alone as the strategy and the comparison say; a restart under copy-always always stops the container and brings the unit file up to date; a container to be replaced is stopped, by systemd where it has a unit file, and removed, or the run fails with it still there; never without the image |
| DockerWorker.Worker.RestartContainer | ansible/module_utils/kolla_docker_worker.py:450-470 | restarts the same container with a current unit file |
| DockerWorker.StartTwice | ansible/module_utils/kolla_docker_worker.py:376-424 | after a successful detached start a second one succeeds and reports nothing if and only if the wanted state is a running one, or a paused one that was already there and matched |
| DockerWorker.StateMatchesExactly | ansible/module_utils/kolla_container_worker.py:317-324 | which of the wanted states each status satisfies |
| DockerWorker.ExitedIsStartedAgain | ansible/module_utils/kolla_docker_worker.py:376-424 | a one-shot container wanted "exited" whose image is there: the first run succeeds, the second one fails or reports a change |
| Dimensions.DimensionsDiffer | ansible/module_utils/kolla_container_worker.py:207-272 | the comparison with its errors, processor sets compared as texts |
| Dimensions.ParseDecimal | ansible/module_utils/kolla_container_worker.py:255-265 | reading a printed integer gives it back |
| Dimensions.UnderscoreSeparates | ansible/module_utils/kolla_container_worker.py:255-265 | reading digits: one underscore between them changes nothing, one at an end is an error |
| Dimensions.PlusIsRead | ansible/module_utils/kolla_container_worker.py:255-265 | a plus sign before a number changes nothing |
| Dimensions.DecimalIsCanonical | ansible/module_utils/kolla_container_worker.py:255-272 | printed numbers have no leading zero, and a sign if and only if they are negative |
| Dimensions.PlainLimitsCompareAsNumbers | ansible/module_utils/kolla_container_worker.py:221-226 | limits with units, and plainly written ones, differ exactly when they are different numbers |
| Dimensions.ComparedAsNumberExactly | ansible/module_utils/kolla_container_worker.py:221-272 | a limit compares as a number with all plain ones if and only if it has a unit or is written canonically |
| Dimensions.FailsExactly | ansible/module_utils/kolla_container_worker.py:207-272 | the comparison of sizes fails if and only if one is missing, empty, or has an unknown unit or no number in front of it |
| Dimensions.UnitsAreBinary | ansible/module_utils/kolla_container_worker.py:221-272 | b, k, m and g, in either case, are powers of 1024: n units equal that many bytes |
| Dimensions.NoProcessors | ansible/module_utils/kolla_container_worker.py:207-272 | for processor sets, nothing, no text and zero are one and differ from everything else |
| Dimensions.LeadingZeroDiffers | ansible/module_utils/kolla_container_worker.py:246-272 | "0512" differs from 512 |
| SystemdWorker.WaitForUnit | ansible/module_utils/kolla_systemd_worker.py:206-217 | success exactly when a look in time finds the state, at the first such look; failure costs timeout // 5 + 2 looks and sleeps more than the timeout by at most five seconds |
| SystemdWorker.RetriesFitExactly | ansible/module_utils/kolla_systemd_worker.py:61-67 | duration times retries stays below the timeout if and only if the number of retries is positive, with the slack bounded on both sides |

## Left out

- FernetRotation.Generate: asks for a positive interval, because the source's loops do not end for zero.
- IronicFence.Execute: asks for positive timeout, interval and window, which the task's configuration options guarantee.
- PowerWorkflow.PowerOffLeavesHostParked: speaks of hosts that only planned power-offs touch, and of fail-safes as well as requests; for power-off requests among reboots and returns see PowerMixed.PowerOffFindsHostParked.
- PowerMixed.PowerOffFindsHostParked: asks that whoever switched the host on did so within its own lease; nothing in the workbook stops an execution whose lease has run out from enabling Nova later.
- HostLock.LeaseMutualExclusion: one Redis server with one clock; replication, fail-over between sentinels and network delay are not part of the model.
- IronicConvergence.ReconcileEstablishes: one writer, API calls that do not fail, and driver_info that is reported unmasked; with masked passwords the source writes them on every run.
- FleetConfig.ValidateConfig: the set of compute hosts is a parameter; parsing the inventory text is not modelled, and the non-mapping shapes of the YAML input are excluded by the types.
- MasakariSegment.NormalizeSegmentSpec: inputs that are not mappings are excluded by the types; a null value and an empty string are one.
- MasakariSegment.ReconcileSegment: the sorting of reported extra hosts; they are a set here.
- IniRoundTrip.RoundTripExactly: starts from logical lines; splitting at the equals sign, quoting and trimming belong to oslo.config's iniparser, which is not part of this model, and values that the base parser would strip of their quotes are outside it.
- MergeConfigs.OverrideConfigParser.Parse: the objects are kept in maps from references to contents rather than as heap objects of the language.
- YamlTree.FailsExactlyOnClash: keys are text here; a mapping with integer keys over a list is modelled by YamlIndexing, for that list alone.
- YamlTree.UpdateAssociates: keys are text here; with integer keys it does not hold (IndexingDoesNotAssociate).
- YamlIndexing.UpdateList: lists inside the list are values; who else holds them is not modelled.
- MergeYaml.Merger.Run: a source that is unreadable or empty is the empty configuration; a source that is not a mapping is excluded by the types; items of a list are not looked into.
- MergeYaml.Merger.UpdateNestedConf: what the output holds after an error, since the action then fails as a whole; mappings of the output, which nothing else refers to, are values.
- DockerWorker.Worker.StartContainer: the individual comparisons of recorded settings are one predicate that accepts what is created from the parameters; engine calls other than pull, unit start and removal do not fail, and a one-shot container is taken as running once started.
- Dimensions.DimensionsDiffer: characters outside ASCII, some of which Python also takes for digits or blanks.
- `wait_nova_service`, `verify_host_return`, `status`, `resolve_host` and the reporting actions: short lookups and the same polling loop.
- `compare_container`, volumes, image removal, the Podman worker and the exec-based configuration check: they depend on the engine's inspect formats or add only easy members.
- Messages, secret redaction, logs, wheel and image building, command lines, Jinja templates and playbooks: no logic of the kind proved here.
- Text is ASCII: letter case and blanks outside it are not modelled.
- Wall-clock rounding of the number of attempts: integers are used with exact ceilings.
