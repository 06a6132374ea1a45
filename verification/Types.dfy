/** The records of the control plane. A record's identifier is the key it is stored under. */
module Types {
  import opened Tables

  datatype Resource = Resource(milliCPU: int, memoryMB: int) {
    function Plus(r: Resource): Resource {
      Resource(milliCPU + r.milliCPU, memoryMB + r.memoryMB)
    }

    predicate NonNegative() {
      milliCPU >= 0 && memoryMB >= 0
    }

    predicate AtMost(r: Resource) {
      milliCPU <= r.milliCPU && memoryMB <= r.memoryMB
    }
  }

  /** Subtraction that stops at zero, as the code releases resources. */
  function Release(used: Resource, r: Resource): Resource {
    Resource(
      if used.milliCPU - r.milliCPU < 0 then 0 else used.milliCPU - r.milliCPU,
      if used.memoryMB - r.memoryMB < 0 then 0 else used.memoryMB - r.memoryMB)
  }

  datatype Taint = Taint(key: string, value: string, effect: string)

  datatype Toleration = Toleration(key: string, value: string, effect: string, operator: string)

  datatype NodeStatus = Ready | Unknown | Down

  datatype Node = Node(
    labels: map<string, string>, taints: seq<Taint>,
    allocatable: Resource, used: Resource, status: NodeStatus)

  /** Status reports carry free text, so any other word is possible too. */
  datatype WorkloadStatus = Pending | Running | Failed | Terminating | Terminated | Unlisted(word: string)

  datatype Workload = Workload(
    deploymentId: string, priority: int, nodeId: string, image: string, resources: Resource,
    status: WorkloadStatus, containerId: string, restartCount: int, version: int, createdAt: int)

  datatype RolloutSpec = RolloutSpec(
    strategy: string, maxUnavailable: int, maxSurge: int,
    canaryEnabled: bool, canaryPercentage: int,
    progressDeadlineSeconds: int, autoRollbackOnFailure: bool, maxFailedWorkloads: int,
    sloErrorRateThreshold: real, sloWindowSeconds: int)

  /** `extras` stands for the fields the modelled code only copies: mounts, claims, probes. */
  datatype DeploymentSpec = DeploymentSpec(
    namespace: string, name: string, image: string, replicas: int, priority: int, resources: Resource,
    labels: Option<map<string, string>>, tolerations: Option<seq<Toleration>>,
    extras: string, rollout: RolloutSpec)
  {
    function LabelMap(): map<string, string> {
      if labels.Some? then labels.value else map[]
    }

    function TolerationList(): seq<Toleration> {
      if tolerations.Some? then tolerations.value else []
    }
  }

  datatype Revision = Revision(revision: int, spec: DeploymentSpec)

  datatype Phase = Stable | Progressing | Canary | CanaryPromoting | Autoscaling | Rollback | RolloutFailed

  datatype DeploymentStatus = DeploymentPending | DeploymentRunning | DeploymentFailed

  datatype Deployment = Deployment(
    spec: DeploymentSpec, generation: int, observedGeneration: int,
    currentRevision: int, history: seq<Revision>,
    phase: Phase, startedAt: Option<int>,
    updatedReplicas: int, readyReplicas: int, unavailableReplicas: int,
    finalizers: seq<string>, deletionMarked: bool, status: DeploymentStatus)

  datatype Action = Create | Delete

  datatype Assignment = Assignment(
    action: Action, nodeId: string, workloadId: string, image: string, containerId: string,
    resources: Resource, stamp: nat)
}
