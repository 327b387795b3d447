/** The list rows the planner, the relation sync and the season walk share. */
module ListModels {
  import opened Wrappers

  datatype ListStatus = Watching | Completed | OnHold | Dropped | PlanToWatch

  /** One show on a list. The source matches titles against regular expressions; here a title is
      only an argument of the two marker functions below. */
  datatype ListEntry = ListEntry(
    malId: int,
    title: string,
    listStatus: ListStatus,
    watchedCount: int,
    totalEpisodes: Option<int>,
    episodeOffset: int,
    franchise: int,
    season: int
  )

  /** The two title scans, as functions of the title alone: the explicit season number a title
      names, and whether it names a cour or part without a season of its own. */
  datatype Markers = Markers(season: string -> Option<int>, split: string -> bool)
}
