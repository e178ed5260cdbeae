/** The plain data classes of the application (package `models`). */
module Models {

  /** One row of the reports screen: which sensor, what it reported, when, and the remote key. */
  datatype ReportItem = ReportItem(tipo: string, estado: string, fecha: string, key: string)

  /** What the proximity classifier writes under the remote path "proximidad". */
  datatype ProximityEvent = ProximityEvent(estado: string, fecha: string)

  /** What the motion classifier writes under the remote path "movimiento". */
  datatype MotionEvent = MotionEvent(tipo: string, fecha: string)
}
