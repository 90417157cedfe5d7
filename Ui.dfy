/** What a page can do besides changing the session store: navigate and show toasts. */
module Ui {

  /** The pages of the wizard. */
  datatype Route = Home | CreateResume | PreviewResume | Payment | DownloadResume

  /** `router.push` adds a history entry, `router.replace` overwrites the current one. */
  datatype Nav = Push(to: Route) | Replace(to: Route)

  /** A toast notification; `destructive` is the red error variant. */
  datatype Toast = Toast(title: string, description: string, destructive: bool)
}
