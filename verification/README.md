# Verification of the OpenStack controller's protocols and algorithms

This project models, in Dafny, the parts of the controller that are protocols or algorithms rather
than calls to other systems, and proves what they promise. `dafny verify dfyconfig.toml` checks all of
it.

| file | what it models |
|---|---|
| `MaintenanceProtocol.dfy` | node maintenance as a step system: handlers of many nodes competing for slots per role, aborts and retries at every step, node events in between |
| `MaintenanceHandlers.dfy` | the same protocol as code: the lock objects, the acquisition under the mutex and the two request handlers, each shown to be a run of the step system |
| `DeepMerge.dfy` | the recursive merge that all configuration goes through, and the order of layers in `merge_spec` |
| `SecretFill.dfy` | the path-selective copy used in credential rotation, and the rotation fields of service secrets |
| `SecretRotation.dfy` | the active/backup pair, the two-write commit, retries of one rotation and of a service group |
| `CredentialAdmission.dfy` | admission of rotation ids, and the history of a deployment it protects |
| `StageMigration.dfy` | the persisted, resumable stages of the OVS to OVN migration |
| `DataplaneMigration.dfy` | the retry loop of its dataplane stage |
| `FirewallCheck.dfy` | its containment check of IPv4 blocks (section 3.1 of RFC 4632) |
| `LiveMigration.dfy` | the loop that moves servers off a compute host |
| `NetworkPolicies.dfy` | ingress policies from declared egress connections, and their squashing |
| `ChannelDemux.dfy` | the WebSocket client that splits frames into channels |
| `TaskRunner.dfy` | the loop that runs and re-creates tasks |
| `HealthPatch.dfy` | the health status by two merge patches (section 2 of RFC 7396) |
| `TextFields.dfy`, `CephSecret.dfy` | the secret exchanged with the Ceph controller |
| `Wrappers.dfy`, `JsonTree.dfy`, `SortedKeys.dfy`, `NodeRoles.dfy` | shared definitions |

Outcomes of the cluster, the network, the OpenStack API and the operator are parameters that may take
any value. The death of a process is one of them.

## Model

| member | source | states |
|---|---|---|
| MaintenanceProtocol.SlotsNeverExceeded | openstack_controller/maintenance.py:241-289 | In every state reached in a steady environment by any interleaving of handlers, aborts, retries and node events, for each role the nodes that exist, have the role and hold an inner-active lock are no more than the role's limit. |
| MaintenanceProtocol.LimitsKeptExactly | openstack_controller/maintenance.py:241-289 | In any environment, the limits hold in every state of a run if and only if every write of an active inner state finds its lock active or a free slot in each role of its node. |
| MaintenanceProtocol.InvReached | openstack_controller/maintenance.py:271-289 | The inductive invariant behind it, in a steady environment: one node at a time in the critical section, and a scan in progress has counted or has still to visit every holder of a slot. |
| MaintenanceProtocol.HoldersOnlyShrink | openstack_controller/maintenance.py:271-289 | In a steady environment only a first acquisition (the write made under the mutex after the count) adds a node to the holders of a role; every other step keeps or shrinks them. |
| MaintenanceProtocol.ReacquireIsFree | openstack_controller/maintenance.py:281-289 | A node whose lock is inner-active re-enters and marks its lock whatever the limits, and no lock and no count changes. |
| MaintenanceProtocol.ActivationExact | openstack_controller/controllers/maintenance.py:77 | A write of the active inner state keeps all limits if and only if the lock is held already or every role of the node has a free slot. |
| MaintenanceProtocol.UnsteadyNodeBypassesTheMutex | openstack_controller/controllers/maintenance.py:77 | A run that puts two computes into maintenance where one is allowed: a node that loses its role and lock and gets the role back while its handler is between acquisition and the second, unprotected write. |
| MaintenanceProtocol.DeactivatedExactly | openstack_controller/controllers/maintenance.py:49-90 | In any environment a lock leaves the active state only by a node deletion request or by its own maintenance handler's release; at a release that execution saw no deployment, or was accepted by all services and saw all finish in order, if and only if it did not take the branch for a lock that is not active (or there are no services); if it did, the lock was created anew after it had looked. |
| MaintenanceProtocol.RenewedLockIsReleasedUnserved | openstack_controller/controllers/maintenance.py:62-88 | For any services a run that releases an active lock with none of them asked: the lock is created anew while the handler is about to release the old one. |
| MaintenanceProtocol.DeactivatedOnlyAfterServices | openstack_controller/controllers/maintenance.py:49-90 | In a steady environment the change handler takes a lock out of the active state only after that execution saw no deployment, or asked every service, was accepted by all, and saw all finish in order. |
| MaintenanceProtocol.ClearedOnlyAfterServices | openstack_controller/controllers/maintenance.py:103-166 | Over any run in any environment, an active inner state is cleared only if that execution of the delete handler saw every service finish in reverse order, or found the node or the deployment absent. |
| MaintenanceProtocol.CallFactsReached | openstack_controller/controllers/maintenance.py:62-90 | Wherever a running handler is, over any run, what it did since it was last started: which lookups, and which services were asked, processed or undone, each once and in order. |
| MaintenanceProtocol.PresentLockKeeps | openstack_controller/maintenance.py:120-137 | Presenting a lock keeps its inner state; it is inactive afterwards if and only if it was and is of this release (where that is looked at). |
| MaintenanceHandlers.Controller.Present | openstack_controller/maintenance.py:120-137 | Creates a missing lock as active, resets one of another release, and leaves any other alone. |
| MaintenanceHandlers.Controller.MaintenanceLocks | openstack_controller/maintenance.py:241-250 | For every role a list of exactly the holders of its slots, each once. |
| MaintenanceHandlers.Controller.CanHandleNmr | openstack_controller/maintenance.py:252-269 | True if and only if every role, of the asking node or not, is below its limit. |
| MaintenanceHandlers.Controller.AcquireInternalLock | openstack_controller/maintenance.py:271-289 | Succeeds if and only if the lock is held already or every role has room; marks that one lock, or changes nothing. |
| MaintenanceHandlers.Controller.AskServices | openstack_controller/controllers/maintenance.py:64-75 | Succeeds if and only if no service raised and all accepted. |
| MaintenanceHandlers.Controller.CallServices | openstack_controller/controllers/maintenance.py:78-87 | Succeeds if and only if every service finished. |
| MaintenanceHandlers.Controller.ChangeHandler | openstack_controller/controllers/maintenance.py:35-90 | Outcome and stored locks for every combination of node, lock, deployment and service answers. |
| MaintenanceHandlers.Controller.DeleteHandler | openstack_controller/controllers/maintenance.py:103-166 | The same for the delete handler, including the removal of a lock that is not required. |
| MaintenanceHandlers.ChangeHandlerIsRun | openstack_controller/controllers/maintenance.py:35-90 | The started handler is a run of its own steps in which the lookup and each service answer what they answered to the handler: it finishes by a run ending with the release, and is to be retried by a run that comes to a point where these answers, or a full role, stop it; so a refusal is never passed over. |
| MaintenanceHandlers.LocksAfter | openstack_controller/controllers/maintenance.py:35-166 | Outcome and lock agree: finished means held and released, cleared and active again, or inactive, for the three handlers; a delete handler to be retried changed nothing; and no other node's lock changes. |
| MaintenanceHandlers.DeleteHandlerIsRun | openstack_controller/controllers/maintenance.py:103-166 | The same for the delete handler, with its inputs: it finishes by a run ending with the lock made active again, or is aborted where a service, or the missing lock, stops it. |
| MaintenanceHandlers.Controller.DeletionRequestHandler | openstack_controller/controllers/maintenance.py:242-272 | Outcome and stored locks of the handler of a node deletion request, which sets a lock inactive once the services are done. |
| MaintenanceHandlers.DeletionHandlerIsRun | openstack_controller/controllers/maintenance.py:242-272 | It finishes by the one step Retire, after every service if there are a deployment and a node; otherwise it changes nothing, for want of a lock or because a service failed. |
| DeepMerge.MergeList | openstack_controller/utils.py:141-147 | The loop of the list strategy computes the list merge of the specification. |
| DeepMerge.MergeItemsMembers | openstack_controller/utils.py:141-147 | A value is in the merged list if and only if it is in one of the two, up to Python equality (True, 1 and 1.0 are one value). |
| DeepMerge.MergeItemsAppends | openstack_controller/utils.py:141-147 | The base list is a prefix of the merged one; what follows comes from the later list and is not there before. |
| DeepMerge.MergeItemsInOrder | openstack_controller/utils.py:141-147 | The elements of the later list are appended in their order: merging a prefix of it gives a prefix. |
| DeepMerge.CanonExactly | openstack_controller/utils.py:141-147 | The membership test tells apart exactly what Python tells apart: numbers by value, text by characters, lists and dicts by parts. |
| DeepMerge.MergeItemsAssociative | openstack_controller/utils.py:141-147 | List merge is associative. |
| DeepMerge.MergeValue | openstack_controller/utils.py:170-181 | The recursive merge computes the specification, failure included. |
| DeepMerge.MergeDict | openstack_controller/utils.py:170-181 | Writing the later dict's entries one by one into the earlier dict gives the merge of the two, or fails if and only if it is undefined. |
| DeepMerge.Idempotent | openstack_controller/utils.py:170-181 | merge(a, a) is a. |
| DeepMerge.Absorbing | openstack_controller/utils.py:170-181 | merge(merge(a, b), b) is merge(a, b). |
| DeepMerge.Associative | openstack_controller/utils.py:118-181 | Both groupings of three trees succeed if and only if the trees are mergeable pairwise, and then they agree. |
| DeepMerge.GroupingsDiffer | openstack_controller/utils.py:118-132 | One grouping may succeed where the other fails: a bool, an int and a float. |
| DeepMerge.MergeAt | openstack_controller/utils.py:170-181 | What a merge holds under any path, from what the inputs hold there: a path of one input only is that input's, a common one holds the merge of both values. |
| DeepMerge.MergeDefined | openstack_controller/utils.py:118-132 | A merge succeeds if and only if both inputs have values of fitting types under every path they share. |
| DeepMerge.ReplaceableExactly | openstack_controller/utils.py:118-132 | Which scalars may replace each other: same types, and numbers except a bool and a float. |
| DeepMerge.MergeSpec | openstack_controller/layers.py:331-366 | The merges of merge_spec are those of the layers size, IAM data if enabled, user spec, in this order over the preset with its artifacts replaced. |
| DeepMerge.LastLayerWins | openstack_controller/layers.py:335-366 | The last layer that defines a path as a scalar decides its value. |
| DeepMerge.UserScalarWins | openstack_controller/layers.py:365-366 | Every scalar of the user's spec is in the merged spec as the user set it. |
| DeepMerge.IamScalarWins | openstack_controller/layers.py:335-366 | A scalar of the IAM data is in the merged spec unless the user defines its path. |
| DeepMerge.SizeScalarWins | openstack_controller/layers.py:335-366 | A scalar of the size is in it unless the IAM data or the user define its path. |
| DeepMerge.PresetKept | openstack_controller/layers.py:299-366 | A path outside the artifacts that no layer defines is as in the preset. |
| DeepMerge.UserListExtends | openstack_controller/layers.py:365-366 | Where the user gives a list, the list from below stays in front of it and exactly the elements of both are there. |
| DeepMerge.PathsGrow | openstack_controller/layers.py:335-366 | The paths of the merged spec are exactly those of the base and of the layers. |
| DeepMerge.UndefinedLayersKeepBase | openstack_controller/layers.py:335-366 | A path that no layer defines is as the base has it. |
| DeepMerge.ArtifactsFromController | openstack_controller/layers.py:331-334 | Where no layer sets them, the artifacts are the controller's two base URLs and nothing else, whatever the preset says. |
| SecretFill.FillAt | openstack_controller/secrets.py:436-450 | The frame of _fill at every path: what the rule selects is the source's, everything else but the dicts on the way is the destination's. |
| SecretFill.FillDefined | openstack_controller/secrets.py:436-450 | _fill fails if and only if, at a dict it copies in part, one side is no dict or the source lacks a key to be copied. |
| SecretFill.RenewSelectsExactly | openstack_controller/secrets.py:665-680 | The rotation fields select exactly the passwords of the database and message users and of the accounts, or the whole identity section if there is no account. |
| SecretFill.KeepSelectsExactly | openstack_controller/secrets.py:665-680 | The immutable fields select exactly the protected usernames, the Barbican kek and the two Neutron secrets. |
| SecretFill.BlendExactly | openstack_controller/secrets.py:501-509 | A rotated service secret, path by literal path: fresh, the active secret's, a dict above such, or the backup's. |
| SecretFill.BlendIsBlended | openstack_controller/secrets.py:501-509 | A promoted secret at every path: renewed paths are fresh, kept ones the active secret's, all others the backup's. |
| SecretFill.BlendedAgain | openstack_controller/secrets.py:501-510 | Promoting a backup that an interrupted rotation has rewritten gives what promoting the original backup would have. |
| SecretFill.LastingKept | openstack_controller/secrets.py:665-680 | With service accounts, protected usernames, the Barbican kek and both Neutron secrets are the active secret's. |
| SecretFill.UsernamesKeptExactly | openstack_controller/secrets.py:665-680 | A rotation keeps every protected username if and only if the service has accounts or nothing is protected: an empty account list replaces the whole identity section. |
| SecretFill.PasswordsFresh | openstack_controller/secrets.py:673-678 | Every password the rotation fields select is the one create() made. |
| SecretRotation.GetSecretsSorted | openstack_controller/secrets.py:246-273 | The loops compute the specified order. |
| SecretRotation.NothingDropped | openstack_controller/secrets.py:259-273 | Sorting through the priority-keyed map drops no secret if and only if no two secrets carry the same non-zero priority. |
| SecretRotation.SortedDescends | openstack_controller/secrets.py:259-273 | For any list of names: secrets with a priority come first, highest first, and those without follow. |
| SecretRotation.WinsExactly | openstack_controller/secrets.py:259-265 | Of secrets with one priority the last listed stands for it. |
| SecretRotation.PairSorted | openstack_controller/secrets.py:246-273 | The order of a pair for every combination of priorities, the lost secret of a tie included. |
| SecretRotation.ActiveAndBackupDefined | openstack_controller/secrets.py:482-511 | Over every run of rotations with any ids, deaths between the two writes, re-creations, deletions and edits, the priorities are both zero or distinct, and the sort returns both secrets with active before backup. |
| SecretRotation.SecretStore.Rotate | openstack_controller/secrets.py:482-511 | Outcome and stored pair of one call, for every priority, rule and point of death. |
| SecretRotation.AttemptExactly | openstack_controller/secrets.py:482-511 | When one call on a pair is a no-op, refused, fails, dies or rotates, each if and only if, and what it has written then. |
| SecretRotation.NotAPairExactly | openstack_controller/secrets.py:484-487 | There is no pair if and only if a secret is missing or both carry one non-zero priority. |
| SecretRotation.SecretStore.Ensure | openstack_controller/secrets.py:513-536 | Computes the specified store: missing secrets created, invalid ones completed, failing at the first that stays invalid. |
| SecretRotation.EnsureExactly | openstack_controller/secrets.py:518-536 | It gets through if and only if every named secret is missing, valid or valid once completed; each up to the first that is not is created, left alone or completed, and all others are untouched. |
| SecretRotation.CompletedExactly | openstack_controller/secrets.py:513-516 | Completion adds exactly the missing fields, from fresh values, and fails if and only if some are missing and cannot be added. |
| SecretRotation.EnsureKeeps | openstack_controller/secrets.py:513-536 | ensure() loses or changes no value and no priority of a stored secret, and adds only named secrets without priority. |
| SecretRotation.EnsureValid | openstack_controller/secrets.py:518-536 | When ensure() gets through, every named secret is there and valid; valid ones are left alone. |
| SecretRotation.RotationCompletes | openstack_controller/secrets.py:482-511 | Through any number of failed or interrupted calls until one completes: the former backup is active with the id, the former active secret is unchanged, and every further call with the id changes nothing. |
| SecretRotation.RetryProgress | openstack_controller/secrets.py:482-511 | After any number of calls the pair is either not rotated, its active secret untouched, or rotated exactly once. |
| SecretRotation.RotateServices | openstack_controller/controllers/openstackdeployment.py:190-198 | The loop over the enabled services stops at the first failure and leaves what the specification says. |
| SecretRotation.GroupExactly | openstack_controller/controllers/openstackdeployment.py:190-198 | A pass gets through if and only if each service's own call succeeds; it makes one call on each up to the first failure and leaves the later ones alone. |
| SecretRotation.GroupRotatedOnce | openstack_controller/controllers/openstackdeployment.py:190-198 | Starting the group over after every failure until one pass completes rotates every enabled service secret exactly once. |
| SecretRotation.LastingNeverChanges | openstack_controller/secrets.py:482-511 | Over any sequence of rotate calls with any ids and deaths the active secret's protected usernames, kek, metadata_secret and ipsec_secret_key never change. |
| CredentialAdmission.AcceptedExactly | openstack_controller/admission/validators/openstack.py:186-235 | When an update is accepted, for all inputs, including that groups are looked at only up to the first without a rotation_id. |
| CredentialAdmission.RefusedExactly | openstack_controller/admission/validators/openstack.py:192-235 | Which refusal an update gets: locked first, then the first removed group, then the first new group whose id is not positive, lower, or more than one higher, with that reason. |
| CredentialAdmission.GroupWithoutIdEndsTheCheck | openstack_controller/admission/validators/openstack.py:198-215 | One group without a rotation_id lets the ids of the groups after it fall. |
| CredentialAdmission.AcceptedNeverLowers | openstack_controller/admission/validators/openstack.py:192-235 | With ids everywhere, an accepted update lowers no id and raises none by more than one. |
| CredentialAdmission.LoweringExactly | openstack_controller/admission/validators/openstack.py:198-235 | Where ids can fall: an accepted update admits no lower id for one of its groups if and only if every old group carries an id and so does every new group up to that one. |
| CredentialAdmission.VanishesExactly | openstack_controller/admission/validators/openstack.py:198-210 | An accepted update can leave a group out, or its id, if and only if an earlier group of the old credentials has no id. |
| CredentialAdmission.NeverGreaterThanRequested | openstack_controller/secrets.py:486-496 | Over the whole history of a deployment, with deletions, re-creations and edits of secrets, no priority exceeds its group's rotation_id; no possible rotate call ends in the greater-rotation_id error, and one finds no pair if and only if a secret is missing. |
| CredentialAdmission.PairsComplete | openstack_controller/secrets.py:482-511 | As long as nobody deletes a secret, every pair of a history is complete. |
| FirewallCheck.NestedOrDisjoint | openstack_controller/cli/ovs_ovn_migration.py:1059-1062 | Two aligned blocks are nested or share no address. |
| FirewallCheck.InsideNeedsPrefix | openstack_controller/cli/ovs_ovn_migration.py:1059 | Only a block with a prefix at least as long fits into another. |
| FirewallCheck.AmongSubnets | openstack_controller/cli/ovs_ovn_migration.py:1060 | The walk over the sub-blocks finds the tested one if and only if its addresses lie in the permitted block. |
| FirewallCheck.AreAddressesAllowed | openstack_controller/cli/ovs_ovn_migration.py:1048-1065 | True if and only if every tested block lies, as a set of addresses, in one permitted block. |
| FirewallCheck.EverythingAllows | openstack_controller/cli/ovs_ovn_migration.py:1054-1055 | The shortcut for 0.0.0.0/0 never changes the answer. |
| FirewallCheck.TwoHalvesAreRefused | openstack_controller/cli/ovs_ovn_migration.py:1056-1065 | A block whose two halves are permitted is refused, though every address of it is permitted. |
| FirewallCheck.CoveredExactly | openstack_controller/cli/ovs_ovn_migration.py:1056-1065 | Every block whose addresses are all permitted lies in one permitted block, if and only if no block is permitted by its two halves alone. |
| FirewallCheck.AnswerExactly | openstack_controller/cli/ovs_ovn_migration.py:1048-1065 | The answer is whether every tested address is permitted, for all tested blocks, if and only if no block is permitted by its two halves alone. |
| StageMigration.StateCM.Update | openstack_controller/cli/ovs_ovn_migration.py:207-211 | Replaces one status, or reports an error having done so or not. |
| StageMigration.StateCM.StageAndPrompt | openstack_controller/cli/ovs_ovn_migration.py:901-943 | One turn of the loop, with its except and finally blocks, computes the specified stage. |
| StageMigration.StateCM.DoMigration | openstack_controller/cli/ovs_ovn_migration.py:893-943 | The stored statuses and the outcome of a whole run, in both modes, for every failure and point of death. |
| StageMigration.StatusesAreWrites | openstack_controller/cli/ovs_ovn_migration.py:893-943 | In both modes, however a run ends, the stored statuses are what the writes in its log make of the initial ones. |
| StageMigration.StageEndsExactly | openstack_controller/cli/ovs_ovn_migration.py:904-943 | In both modes, when a stage ends the run, each if and only if: by death, by the answer N, or by its error, which Y drops unless marking the failure failed too. |
| StageMigration.ShapeAlways | openstack_controller/cli/ovs_ovn_migration.py:893-943 | Across any number of non-interactive runs, each dying anywhere, the statuses are COMPLETED* (STARTED or FAILED)? init*. |
| StageMigration.RanOnlyInOrder | openstack_controller/cli/ovs_ovn_migration.py:904-917 | A non-interactive run starts a stage body only when all earlier stages are completed. |
| StageMigration.CompletedForever | openstack_controller/cli/ovs_ovn_migration.py:905-909 | A stage completed when a run begins, in either mode, stays completed through all later runs. |
| StageMigration.OverwrittenExactly | openstack_controller/cli/ovs_ovn_migration.py:916-922 | Within a run a COMPLETED is overwritten if and only if its write took effect, reported an error, and the FAILED mark then took effect. |
| StageMigration.ReturnsExactly | openstack_controller/cli/ovs_ovn_migration.py:893-943 | For every non-interactive run, dying or not: it returns if and only if every stage passes, and then all are completed; and it returns if and only if all stages end completed, except for just those runs stopped by a completed stage with all later ones completed. |
| StageMigration.ReturnsExactlyInShape | openstack_controller/cli/ovs_ovn_migration.py:893-943 | Among runs that survive, from statuses that non-interactive runs leave, the exception is just a last stage whose COMPLETED write took effect with an error and whose FAILED write was refused. |
| StageMigration.RaisedThoughCompleted | openstack_controller/cli/ovs_ovn_migration.py:918-943 | Why that condition is needed: a run that raises with every stage completed. |
| StageMigration.RanPastFailureOnlyAfterYes | openstack_controller/cli/ovs_ovn_migration.py:924-943 | In interactive mode a body runs after a failure seen in that run only if the operator answered Y to the prompt after that failure. |
| StageMigration.NoReturnsPastFailure | openstack_controller/cli/ovs_ovn_migration.py:924-943 | After any stage, whatever it did, an interactive run returns if and only if the operator answers N; any error kept or exception on its way out is dropped, and the stored statuses are those the stage left. |
| StageMigration.InteractiveReturns | openstack_controller/cli/ovs_ovn_migration.py:893-943 | An interactive run returns if and only if it gets through all stages or is stopped by N. |
| DataplaneMigration.CheckNodesResults | openstack_controller/cli/ovs_ovn_migration.py:398-426 | Exactly the nodes of the role with an unsuccessful result, and whether they exceed the threshold. |
| DataplaneMigration.MigrateDataplane | openstack_controller/cli/ovs_ovn_migration.py:695-727 | The retry loop computes the specified tries; it raises if and only if the last one exceeds a threshold or a pool of workers cannot be made. |
| DataplaneMigration.TriesExactly | openstack_controller/cli/ovs_ovn_migration.py:695-719 | From the tries and the pods listed alone: the first runs on every pod, a retry on the pods of the gateways and computes that failed in the try before; there is another try if and only if too many gateways or computes failed in the last one (more than none and than the threshold) and a pool can be made. |
| DataplaneMigration.RaisesExactly | openstack_controller/cli/ovs_ovn_migration.py:699-727 | It raises for exceeded thresholds if and only if all three tries had too many failures. |
| DataplaneMigration.RetriesOnlyFailed | openstack_controller/cli/ovs_ovn_migration.py:699-719 | A retry runs on failed nodes only, and the failed set only shrinks. |
| DataplaneMigration.ReturnsWithinThresholds | openstack_controller/cli/ovs_ovn_migration.py:695-727 | Raises for exceeded thresholds only after three tries; on a return the failed gateways and computes of the last try are within their thresholds. |
| DataplaneMigration.LatestAreFailedOrLost | openstack_controller/cli/ovs_ovn_migration.py:699-719 | For every course of the tries the gateways and computes whose most recent execution failed are exactly the nodes left failed and those that lost their pod when they were to be run again; none is both. |
| DataplaneMigration.FailedAreLatestExactly | openstack_controller/cli/ovs_ovn_migration.py:699-719 | The failed set is the set of gateways and computes whose most recent execution failed if and only if no node that is to be run again loses its pod. |
| DataplaneMigration.MostRecentExactly | openstack_controller/cli/ovs_ovn_migration.py:695-727 | On a normal return the nodes of a role whose most recent execution failed are within the threshold if and only if no node was lost or failed and lost nodes together are. |
| DataplaneMigration.MostRecentWithinThresholds | openstack_controller/cli/ovs_ovn_migration.py:695-727 | On a normal return, for each of the two roles, the nodes whose most recent execution failed are within the threshold, if nodes that are to be run again keep their pods. |
| DataplaneMigration.LostPodCountsAsRecovered | openstack_controller/cli/ovs_ovn_migration.py:699-719 | Without that condition it fails: a failed compute that loses its pod, beside a healthy one, counts as recovered. |
| LiveMigration.DoServersMigration | openstack_controller/services/__init__.py:1788-1840 | The loop requests exactly the specified migrations and ends if and only if no server is left. |
| LiveMigration.TurnExactly | openstack_controller/services/__init__.py:1799-1840 | A turn requests one of the servers left if few enough are migrating, and then leaves exactly the servers listed as valid whose requests have not used up the attempts. |
| LiveMigration.EndsExactly | openstack_controller/services/__init__.py:1795-1840 | The loop is over if and only if there was no server at first or some turn listed none within its budget. |
| LiveMigration.EachServerWithinBudget | openstack_controller/services/__init__.py:1808-1840 | Whatever the API answers, no server is asked to migrate more than max(1, attempts) times. |
| LiveMigration.TotalCallsBounded | openstack_controller/services/__init__.py:1795-1840 | All calls together are at most the servers ever listed times that budget. |
| LiveMigration.CallsOnlyWhenFree | openstack_controller/services/__init__.py:1799-1812 | While servers remain, a call is made in exactly the turns in which fewer than `concurrency` servers are reported migrating. |
| LiveMigration.LoopEnds | openstack_controller/services/__init__.py:1795-1840 | With finite waits between free turns the loop ends within a number of turns known beforehand. |
| LiveMigration.WaitsForever | openstack_controller/services/__init__.py:1820-1825 | Without that it may wait for ever. |
| LiveMigration.GoesOnExactly | openstack_controller/services/__init__.py:1795-1840 | Over finitely many servers the loop goes on for ever if and only if it gets to a turn from which on every turn finds too many servers migrating and lists one within its budget. |
| NetworkPolicies.SquashPolicies | openstack_controller/resource_view.py:96-110 | The dictionaries keyed by port hash hold exactly the squashed policies. |
| NetworkPolicies.SquashGroups | openstack_controller/resource_view.py:96-110 | The squashed policies are every port list of the policies once, with the sources of all policies that have it. |
| NetworkPolicies.SquashKeepsTraffic | openstack_controller/resource_view.py:96-110 | Squashing allows exactly the (source, port) pairs that were allowed, if every policy names a source and the hash is injective. |
| NetworkPolicies.SquashKeepsTrafficExactly | openstack_controller/resource_view.py:96-110 | For any policies: squashing keeps the traffic to a port from all sources if and only if the port, when it is open to everyone, is open through a port list none of whose policies names a source. |
| NetworkPolicies.SourcelessPolicyIsNarrowed | openstack_controller/resource_view.py:96-110 | Without sources it fails: a policy for everyone is narrowed by squashing. |
| NetworkPolicies.SquashedPortsDiffer | openstack_controller/resource_view.py:96-110 | No two squashed policies share a port list. |
| NetworkPolicies.SquashIdempotent | openstack_controller/resource_view.py:96-110 | Squashing twice is squashing once. |
| NetworkPolicies.GetNetworkPolicies | openstack_controller/resource_view.py:112-136 | Computes, per destination, the squashed policies of all egress connections, or fails if and only if one of them has no policy. |
| NetworkPolicies.CollectPolicies | openstack_controller/resource_view.py:116-125 | Appends the policy of each connection under its destination, in order. |
| NetworkPolicies.GetPortNamed | openstack_controller/resource_view.py:31-34 | A port is found if and only if one has the name, and it is the first with that name. |
| NetworkPolicies.PoliciesDefined | openstack_controller/resource_view.py:55-71 | Policies exist if and only if every declared connection names two children that are there, the source has labels, and the destination has a port of every name. |
| NetworkPolicies.PoliciesAllowExactlyConnections | openstack_controller/resource_view.py:112-136 | The squashed ingress policies of a destination allow exactly the traffic that the egress connections of the tree declare, a port name meaning the first port of that name; a destination has policies if and only if a connection leads to it. |
| ChannelDemux.Client.Update | openstack_controller/websocket_client.py:207-251 | At most one frame is taken; its text goes to the buffer of the channel its first character names. |
| ChannelDemux.WrittenArrives | openstack_controller/websocket_client.py:147-251 | A frame made as write_channel makes it is appended to that channel and to no other. |
| ChannelDemux.OpenExactly | openstack_controller/websocket_client.py:207-251 | After any number of looks the connection is open if and only if none met a close frame or a lost socket; else the looks stop right after the first that did. |
| ChannelDemux.Client.PeekChannel | openstack_controller/websocket_client.py:110-116 | Returns the buffer after one update and removes nothing. |
| ChannelDemux.Client.ReadChannel | openstack_controller/websocket_client.py:118-126 | Updates only if the channel has no buffer; returns and empties it. |
| ChannelDemux.Client.ReadlineChannel | openstack_controller/websocket_client.py:128-145 | Computes the specified line and state, whatever arrives while it waits; without a timeout, whether it raises. |
| ChannelDemux.Client.ReadAll | openstack_controller/websocket_client.py:188-201 | Returns all buffers by channel name and clears them; fails, keeping all, if and only if a channel has no name. |
| ChannelDemux.Client.RunForever | openstack_controller/websocket_client.py:253-266 | Updates until the connection closes or the time is over, and tells which. |
| ChannelDemux.NothingLostOrMixed | openstack_controller/websocket_client.py:110-251 | For any interleaving of operations and each channel: what was delivered, newlines put back, followed by the buffer is the text received on the channel, in order; no buffer is empty. |
| ChannelDemux.ReadlineReturns | openstack_controller/websocket_client.py:133-145 | With a timeout readline returns a line if and only if, within its time, the connection is open while the buffer holds a newline; so never after the close, whatever is buffered. |
| ChannelDemux.NoTimeoutExactly | openstack_controller/websocket_client.py:130-145 | Without a timeout it returns a line if and only if one is buffered on an open connection, and otherwise raises, changing nothing, unless the connection is closed. |
| ChannelDemux.LinesInOrder | openstack_controller/websocket_client.py:128-145 | A channel drained by readline alone gives the complete lines of the received text from the first on, none skipped, repeated or cut. |
| TaskRunner.Round | openstack_controller/controllers/openstackdeployment.py:97-126 | One pass over the awaited tasks re-creates exactly those with a temporary failure, with their definitions unchanged. |
| TaskRunner.RunTask | openstack_controller/controllers/openstackdeployment.py:94-133 | Raises if and only if some definition ends in a permanent failure; each definition ends exactly once, at its first execution that does not fail temporarily. |
| TaskRunner.Partition | openstack_controller/controllers/openstackdeployment.py:94-126 | At every round each definition is exactly one of pending, succeeded, failed permanently. |
| TaskRunner.OverExactly | openstack_controller/controllers/openstackdeployment.py:96 | The loop is over after k rounds if and only if every definition ended within k executions. |
| HealthPatch.GetHealthStatuses | openstack_controller/batch_health.py:39-50 | The nested map holds, for each service and component, the last listed status, and nothing else. |
| HealthPatch.LatestExactly | openstack_controller/batch_health.py:39-50 | The last listed status is that of an object of the service and component with none of them after it; there is one if and only if one is listed. |
| HealthPatch.GetOverallHealth | openstack_controller/batch_health.py:72-84 | Counts exactly the services without an unhealthy component. |
| HealthPatch.StatusObject.RemoveStaleStatuses | openstack_controller/batch_health.py:53-69 | Removes exactly the stored services and components that are not among the statuses; writes nothing if there are none. |
| HealthPatch.StatusObject.UpdateHealthStatuses | openstack_controller/batch_health.py:87-94 | A pass applies the two patches for the statuses of the listed objects. |
| HealthPatch.PatchIdempotent | openstack_controller/osdplstatus.py:109-110 | A merge patch applied twice is the patch applied once. |
| HealthPatch.PassExactly | openstack_controller/batch_health.py:87-94 | From any stored object, a pass leaves exactly the services and components of the statuses with their status and generation; other fields of a component that was stored stay. |
| HealthPatch.PassLeavesTheRest | openstack_controller/osdplstatus.py:109-110 | The two patches touch nothing outside status.health. |
| HealthPatch.SecondPassIdle | openstack_controller/batch_health.py:53-69 | A second pass with the same statuses has an empty removal patch and changes nothing. |
| TextFields.SplitOfJoin | openstack_controller/ceph_api.py:128-130 | Splitting joined parts gives them back if none holds the separator. |
| TextFields.PartsKeptOnlyIfFree | openstack_controller/ceph_api.py:128-130 | Only then are there as many parts after as before. |
| TextFields.SplitExactly | openstack_controller/ceph_api.py:154-158 | Splitting gives certain parts if and only if they are free of the separator and joined are the text. |
| TextFields.ParseOfInt | openstack_controller/ceph_api.py:183-190 | Decimal text of any integer parses to it. |
| TextFields.ParseOfQuad | openstack_controller/ceph_api.py:183-190 | Dotted-quad text of any IPv4 address parses to it. |
| TextFields.ParseDigitsExactly | openstack_controller/ceph_api.py:187-190 | Exactly the texts of digits are numbers, each the one whose decimal text follows the leading zeros. |
| TextFields.QuadExactly | openstack_controller/ceph_api.py:187-190 | An address is parsed from its own dotted quad alone. |
| CephSecret.ToSecret | openstack_controller/ceph_api.py:117-131 | The loops build the specified secret, or fail as specified. |
| CephSecret.EncodeExactly | openstack_controller/ceph_api.py:117-131 | There is a secret if and only if there is a gateway and everything encoded is ASCII; what is under its four fixed keys. |
| CephSecret.EncodedServices | openstack_controller/ceph_api.py:125-130 | Under a user's name are the credentials of the last service with that user, if there is one. |
| CephSecret.ServiceFormat | openstack_controller/ceph_api.py:126-130 | A service is written as key name and key, then each pool as name, role and device class, with semicolons and colons between. |
| CephSecret.MonitorsFormat | openstack_controller/ceph_api.py:183-184 | Monitors are written as address, colon and port, with commas between. |
| CephSecret.FromSecret | openstack_controller/ceph_api.py:134-180 | The pops and the loop compute the specified parameters, or the first error. |
| CephSecret.DecodeExactly | openstack_controller/ceph_api.py:134-190 | Decoding gives certain parameters if and only if the secret says them entry by entry: the admin key, one endpoint for each part of the monitors, the gateway, one service for each user entry in order; a missing fixed key is a KeyError. |
| CephSecret.RgwExactly | openstack_controller/ceph_api.py:141-149 | There is a gateway if and only if both URLs are there and not empty; a missing one is no error. |
| CephSecret.ServiceExactly | openstack_controller/ceph_api.py:156-170 | A service is read from its own text alone: nothing else is accepted. |
| CephSecret.MonitorsRoundTrip | openstack_controller/ceph_api.py:183-190 | Endpoints come back if and only if there is one: an empty list reads as a malformed endpoint. |
| CephSecret.ServiceRoundTrip | openstack_controller/ceph_api.py:126-130 | One service's credentials come back if and only if their fields are free of the separators. |
| CephSecret.RoundTrip | openstack_controller/ceph_api.py:117-180 | Encoding succeeds and decoding gives the parameters back if and only if users are distinct, there is an endpoint, both gateway URLs are non-empty, everything encoded is ASCII and no field holds a separator. |
| CephSecret.UnknownKeysIgnored | openstack_controller/ceph_api.py:151-155 | Keys that neither side knows make no difference to decoding. |
| CephSecret.RoundTripWithExtras | openstack_controller/ceph_api.py:134-180 | The round trip holds with any unknown keys added anywhere. |
| CephSecret.OrderOnlyMovesServices | openstack_controller/ceph_api.py:134-180 | Reordering the keys of a secret only reorders the decoded services. |

## Where the code differs from what it says

- The slot limit can be passed through the second write of the inner state at
  `openstack_controller/controllers/maintenance.py:77`, which is made outside the mutex
  (`UnsteadyNodeBypassesTheMutex`). The bound is proved for a steady environment: no node appears or
  gains a role while its lock is inner-active or its change handler relies on that lock; for any
  environment it is stated exactly (`LimitsKeptExactly`).
- In an environment that is not steady a lock can also be released with no service asked
  (`RenewedLockIsReleasedUnserved`, `DeactivatedExactly`). Clearing of the inner state needs no such
  assumption.
- "COMPLETED is never overwritten" holds from run to run, but not within a run if the write reports an
  error after taking effect (`OverwrittenExactly`); and "a run returns if and only if all stages end
  completed" fails in just the runs that `ReturnsExactly` describes (`RaisedThoughCompleted` is one).
- The answer N to the migration prompt is announced as an abort of the whole procedure, but the run
  returns normally even after a failure (`NoReturnsPastFailure`).
- The firewall check says that all subnets must be in the permitted networks; it asks for each to lie
  in a single permitted one (`TwoHalvesAreRefused`). Both are the same exactly if no block is permitted
  by its two halves alone (`AnswerExactly`).
- A failed node that has lost its pod when the retry lists the pods counts as recovered
  (`LostPodCountsAsRecovered`); `FailedAreLatestExactly` and `MostRecentExactly` say when that matters.
- Rotation of a service secret with protected accounts but no service accounts replaces the protected
  usernames (`UsernamesKeptExactly`). No service of the repository is such a one: services in the map of
  OpenStack services get accounts of their own
  (`openstack_controller/services/base.py:61-65`), and the one other service with a secret names one
  (`openstack_controller/services/__init__.py:941`).
- A credentials group without a rotation id ends the admission check for all later groups
  (`GroupWithoutIdEndsTheCheck`); `LoweringExactly` and `VanishesExactly` say for which groups ids
  can fall.
- An ingress policy without sources may be narrowed by squashing (`SourcelessPolicyIsNarrowed`,
  `SquashKeepsTrafficExactly`); policies built from the tree always name one.
- readline without a timeout, its default, raises where it would have to wait (`NoTimeoutExactly`).

## Left out

- Mutation in place and aliasing in the merge: dict merge stores sub-dicts of the later input by
  reference, so merge_osdpl_into_helmbundle can carry one chart's values into the next release, and a
  failed merge leaves its base partly changed. The model merges values and says nothing about either.
- Float NaN, which is unequal to itself, and infinities: floats are reals.
- Several controller processes, several requests for one node, and handlers of one object in parallel:
  one controller process, one request per node, and handlers of one object serialised are taken as
  given. The steps of reading a lock and patching it are single steps, as are the API calls of
  present() and the removal of a lock by a node event handler.
- The release check of present() is reduced to whether the lock carries the current release; its merge
  of the dummy object into an existing lock is left out.
- Waiting for the node and its pods to be ready in the delete handler, error messages on locks, the
  handlers for cluster maintenance, and what follows the deletion of a lock object.
- What the services do in can_handle_nmr, process_nmr, delete_nmr and process_ndr, and the shared
  availability zone check; each call accepts, refuses or raises. Which services the node deletion handler
  has called is not recorded in the step system; its write may come at any time.
- Ensure: the accounts that service secrets add in their own ensure() are left out. Whether data are
  valid for their class is a parameter, and conversion to the class and back changes nothing.
- Certificates and keys, marshalling of secret values (values are typed trees), and the id's conversion
  to text.
- Limits of the two maintenance settings below zero.
- Node roles that change while the dataplane migration runs, results of a pod that leaves while the
  script runs, and the checks before and after the loop.
- RotateServices: the instances of services are taken to be given; their creation and the admin group's
  database update are left out.
- DoServersMigration: covers one execution of the live mode; a handler that is started again starts
  counting again. The modes skip and manual and the check of what is left afterwards are left out, and
  whether a request raises makes no difference to the loop.
- Update: frames are taken after decoding, so a character split over two frames, which the decoder
  replaces, is out of the model; so are the two polling mechanisms. Timeouts are a number of turns.
- RunTask: asyncio cancellation and the pauses between rounds; the method is for schedules in which
  every definition ends, and OverExactly says that the loop never ends otherwise.
- UpdateHealthStatuses: the text written to status.osdpl.health is returned as its two numbers, and its
  patch, to another part of the status, is left out. How a status is computed from an object is a
  parameter.
- FromSecret: base64 is an inverse pair on text that keeps the empty text empty; integers and addresses
  parse as str() and Python 3.10's ipaddress write and read them, without the other spellings that int()
  accepts. The gateway secret OSRGWCreds is left out.
- GetNetworkPolicies: the port hash is injective and equal only for equal lists; egress policies are
  empty in the source.
- Templates, Helm, Kubernetes and OpenStack calls, command line parsing, the exporter, other
  validators, tempest settings and the support report are table lookups or calls to other systems.
