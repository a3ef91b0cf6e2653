/**
 * The record shapes shared by the watcher and the observer (src/interfaces.ts
 * and the local interfaces of resize-observer.ts). DOM rectangle fields are
 * floating point in the browser; the model keeps them as integers because the
 * only operation ever applied to them is `!==`.
 */
module Interfaces {

  /** Identity of an observed DOM node (`Element | SVGElement`); only `===` is applied to it. */
  type Element = nat

  /** Identity of a `ResizeObserver` object, the owner the shared watcher records. */
  type Instance = nat

  /** A `ClientRect` / `DOMRect` as `getBoundingClientRect` returns it. */
  datatype Rect = Rect(x: int, y: int, width: int, height: int, top: int, right: int, bottom: int, left: int)

  /** `'content-box' | 'border-box'` */
  datatype Box = ContentBox | BorderBox

  datatype ResizeObserverOptions = ResizeObserverOptions(box: Box)

  datatype BoxSize = BoxSize(blockSize: int, inlineSize: int)

  datatype ResizeObserverEntry = ResizeObserverEntry(
    borderBoxSize: BoxSize,
    contentBoxSize: BoxSize,
    contentRect: Rect,
    target: Element)

  /** What an instance records per observed element: its options and its last known rect. */
  datatype ElementData = ElementData(options: ResizeObserverOptions, rect: Rect)

  /** One changed element with the rect just read, as handed to `applyChanges`. */
  datatype ElementRect = ElementRect(element: Element, rect: Rect)
}
