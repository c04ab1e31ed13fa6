/**
  The records the dashboard passes around (src/types.ts). `DeploymentInfo`
  and `DeploymentHistory` have the same fields and are one datatype here.
  Optional and nullable fields are `Option`s; numbers are integers.
*/
module Types {
  import opened Wrappers

  /** The three values of the `status` union type. */
  datatype Status = Success | Failed | Rollback

  /** The string the source stores for each status. */
  function StatusName(s: Status): string {
    match s
    case Success => "success"
    case Failed => "failed"
    case Rollback => "rollback"
  }

  /** One deployment event of one component to one environment. */
  datatype Deployment = Deployment(
    id: int,
    artifactVersion: string,
    deployedAt: string,
    deployedTime: Option<string>,
    deployedBy: string,
    status: Status,
    duration: Option<string>,
    jiraTicketId: Option<string>,
    branchUrl: Option<string>,
    gitCommitUrl: Option<string>,
    releaseNotes: Option<string>,
    buildNumber: Option<string>,
    changeNumber: Option<string>,
    componentName: string,
    componentId: Option<int>,
    environmentId: int,
    eimId: int,
    rn: int,
    envName: string)

  /**
    The current state of one component: at most one deployment per
    lower-cased environment name. A `null` slot of the source and a missing
    key are the same here: every producer stores deployments only.
  */
  datatype ComponentData = ComponentData(
    id: string,
    name: string,
    description: string,
    repository: string,
    owner: string,
    deployments: map<string, Deployment>)

  /** An EIM descriptor as the EIM endpoints return it. */
  datatype Eim = Eim(id: int, eimNumber: string, name: string, description: string)
}
